// The registry's file format: open_registry and save_registry of
// loader/registry.c. Numbers are little-endian 32-bit words.
module RegistryFile {
  import opened MachineWords

  /** struct reg_value; its len is the length of value. */
  datatype Entry = Entry(kind: Word, name: seq<Byte>, value: seq<Byte>)

  /** The name is a C string, and the lengths fit the fields they are written to. */
  predicate StorableEntry(e: Entry) {
    0 !in e.name && |e.name| < WORD && |e.value| < WORD
  }

  predicate Storable(es: seq<Entry>) {
    |es| < WORD && forall i :: 0 <= i < |es| ==> StorableEntry(es[i])
  }

  // ----- printing -----

  function PrintWord(w: Word): (s: seq<Byte>)
    ensures |s| == 4
  {
    [w % 256, w / 256 % 256, w / 65536 % 256, w / 16777216]
  }

  function PrintEntry(e: Entry): seq<Byte>
    requires StorableEntry(e)
  {
    PrintWord(e.kind) + PrintWord(|e.name|) + e.name + PrintWord(|e.value|) + e.value
  }

  function PrintEntries(es: seq<Entry>): seq<Byte>
    requires Storable(es)
    decreases |es|
  {
    if es == [] then [] else PrintEntry(es[0]) + PrintEntries(es[1..])
  }

  /** The bytes of a saved registry. */
  function Print(es: seq<Entry>): seq<Byte>
    requires Storable(es)
  {
    PrintWord(|es|) + PrintEntries(es)
  }

  /** What a file holds after it was opened without truncation and data was written from its start. */
  function Overwrite(file: seq<Byte>, data: seq<Byte>): seq<Byte> {
    if |data| <= |file| then data + file[|data|..] else data
  }

  // ----- parsing -----

  datatype Option<+T> = None | Some(value: T)

  function ReadWord(f: seq<Byte>, at: nat): Word
    requires at + 4 <= |f|
  {
    f[at] as int + 256 * f[at + 1] as int + 65536 * f[at + 2] as int + 16777216 * f[at + 3] as int
  }

  /** A word of the file, or None behind its end. */
  function Word32(f: seq<Byte>, at: nat): Option<Word> {
    if at + 4 <= |f| then Some(ReadWord(f, at)) else None
  }

  /** A stretch of the file, or None if it runs over the end. */
  function Stretch(f: seq<Byte>, at: nat, n: nat): (r: Option<seq<Byte>>)
    ensures r.Some? ==> at + n <= |f| && r.value == f[at..at + n]
  {
    if at + n <= |f| then Some(f[at..at + n]) else None
  }

  /** One entry from position at, with the position behind it. */
  function ParseEntry(f: seq<Byte>, at: nat): (r: Option<(Entry, nat)>)
    ensures r.Some? ==> at < r.value.1 <= |f|
  {
    var kind := Word32(f, at);
    var len := Word32(f, at + 4);
    if kind.None? || len.None? then None
    else
      var name := Stretch(f, at + 8, len.value);
      var size := Word32(f, at + 8 + len.value);
      if name.None? || size.None? || 0 in name.value then None
      else
        var value := Stretch(f, at + 12 + len.value, size.value);
        if value.None? then None
        else Some((Entry(kind.value, name.value, value.value), at + 12 + len.value + size.value))
  }

  function ParseEntries(f: seq<Byte>, at: nat, n: nat): Option<seq<Entry>>
    decreases n
  {
    if n == 0 then Some([])
    else
      var e := ParseEntry(f, at);
      if e.None? then None
      else
        var rest := ParseEntries(f, e.value.1, n - 1);
        if rest.None? then None else Some([e.value.0] + rest.value)
  }

  /** The entries of a registry file; None where the reads of open_registry would run over its end. */
  function Parse(f: seq<Byte>): Option<seq<Entry>> {
    var n := Word32(f, 0);
    if n.None? then None else ParseEntries(f, 4, n.value)
  }

  // ----- round trip -----

  lemma WordRoundTrip(f: seq<Byte>, at: nat, w: Word)
    requires at + 4 <= |f| && f[at..at + 4] == PrintWord(w)
    ensures Word32(f, at) == Some(w)
  {
    var s := f[at..at + 4];
    assert s[0] == f[at] && s[1] == f[at + 1] && s[2] == f[at + 2] && s[3] == f[at + 3];
    WordBytes(w);
  }

  lemma WordBytes(w: Word)
    ensures w == w % 256 + 256 * (w / 256 % 256) + 65536 * (w / 65536 % 256) + 16777216 * (w / 16777216)
  {
    var a, b, c := w / 256, w / 65536, w / 16777216;
    assert w == 256 * a + w % 256;
    assert a / 256 == b && b / 256 == c;
    assert a == 256 * b + a % 256;
    assert b == 256 * c + b % 256;
  }

  /** f holds s from position at on. */
  predicate HasAt(f: seq<Byte>, at: nat, s: seq<Byte>) {
    at + |s| <= |f| && f[at..at + |s|] == s
  }

  lemma HasAtSplit(f: seq<Byte>, at: nat, s: seq<Byte>, t: seq<Byte>)
    ensures HasAt(f, at, s + t) <==> HasAt(f, at, s) && HasAt(f, at + |s|, t)
  {
    if at + |s| + |t| <= |f| {
      var u := f[at..at + |s| + |t|];
      assert u[..|s|] == f[at..at + |s|] && u[|s|..] == f[at + |s|..at + |s| + |t|];
      assert (s + t)[..|s|] == s && (s + t)[|s|..] == t;
      assert u == u[..|s|] + u[|s|..];
    }
  }

  lemma FiveParts(f: seq<Byte>, at: nat, a: seq<Byte>, b: seq<Byte>, c: seq<Byte>, d: seq<Byte>, e: seq<Byte>)
    requires HasAt(f, at, a + b + c + d + e)
    ensures HasAt(f, at, a) && HasAt(f, at + |a|, b) && HasAt(f, at + |a| + |b|, c)
    ensures HasAt(f, at + |a| + |b| + |c|, d) && HasAt(f, at + |a| + |b| + |c| + |d|, e)
  {
    hide HasAt;
    HasAtSplit(f, at, a + b + c + d, e);
    HasAtSplit(f, at, a + b + c, d);
    HasAtSplit(f, at, a + b, c);
    HasAtSplit(f, at, a, b);
  }

  lemma ParsedEntry(f: seq<Byte>, at: nat, e: Entry)
    requires StorableEntry(e)
    requires Word32(f, at) == Some(e.kind) && Word32(f, at + 4) == Some(|e.name|)
    requires Stretch(f, at + 8, |e.name|) == Some(e.name) && Word32(f, at + 8 + |e.name|) == Some(|e.value|)
    requires Stretch(f, at + 12 + |e.name|, |e.value|) == Some(e.value)
    ensures ParseEntry(f, at) == Some((e, at + 12 + |e.name| + |e.value|))
  {
    hide Word32, Stretch;
  }

  lemma PrintedParts(f: seq<Byte>, at: nat, e: Entry)
    requires StorableEntry(e) && HasAt(f, at, PrintEntry(e))
    ensures HasAt(f, at, PrintWord(e.kind)) && HasAt(f, at + 4, PrintWord(|e.name|)) && HasAt(f, at + 8, e.name)
    ensures HasAt(f, at + 8 + |e.name|, PrintWord(|e.value|)) && HasAt(f, at + 12 + |e.name|, e.value)
    ensures |PrintEntry(e)| == 12 + |e.name| + |e.value|
  {
    var kind, length, size := PrintWord(e.kind), PrintWord(|e.name|), PrintWord(|e.value|);
    hide PrintWord, HasAt;
    FiveParts(f, at, kind, length, e.name, size, e.value);
  }

  lemma EntryRoundTrip(f: seq<Byte>, at: nat, e: Entry)
    requires StorableEntry(e) && HasAt(f, at, PrintEntry(e))
    ensures ParseEntry(f, at) == Some((e, at + |PrintEntry(e)|))
  {
    hide PrintWord, HasAt, Word32, Stretch, ParseEntry, PrintEntry;
    PrintedParts(f, at, e);
    HasWord(f, at, e.kind);
    HasWord(f, at + 4, |e.name|);
    HasWord(f, at + 8 + |e.name|, |e.value|);
    HasStretch(f, at + 8, e.name);
    HasStretch(f, at + 12 + |e.name|, e.value);
    ParsedEntry(f, at, e);
  }

  lemma HasWord(f: seq<Byte>, at: nat, w: Word)
    requires HasAt(f, at, PrintWord(w))
    ensures Word32(f, at) == Some(w)
  {
    WordRoundTrip(f, at, w);
  }

  lemma HasStretch(f: seq<Byte>, at: nat, s: seq<Byte>)
    requires HasAt(f, at, s)
    ensures Stretch(f, at, |s|) == Some(s)
  {
  }

  lemma ParsedStep(f: seq<Byte>, at: nat, n: nat, e: Entry, next: nat, rest: seq<Entry>)
    requires n > 0 && ParseEntry(f, at) == Some((e, next)) && ParseEntries(f, next, n - 1) == Some(rest)
    ensures ParseEntries(f, at, n) == Some([e] + rest)
  {
    hide ParseEntry;
  }

  lemma PrintStep(es: seq<Entry>)
    requires Storable(es) && es != []
    ensures StorableEntry(es[0]) && Storable(es[1..])
    ensures PrintEntries(es) == PrintEntry(es[0]) + PrintEntries(es[1..])
  {
  }

  /** The printed entries begin with the first one, and the others follow it. */
  lemma PrintedFirst(f: seq<Byte>, at: nat, es: seq<Entry>)
    requires Storable(es) && es != [] && HasAt(f, at, PrintEntries(es))
    ensures StorableEntry(es[0]) && Storable(es[1..])
    ensures HasAt(f, at, PrintEntry(es[0])) && HasAt(f, at + |PrintEntry(es[0])|, PrintEntries(es[1..]))
    ensures |PrintEntries(es)| == |PrintEntry(es[0])| + |PrintEntries(es[1..])|
  {
    PrintStep(es);
    hide PrintEntry, PrintEntries, HasAt, Storable;
    HasAtSplit(f, at, PrintEntry(es[0]), PrintEntries(es[1..]));
  }

  lemma ParseNothing(f: seq<Byte>, at: nat)
    ensures ParseEntries(f, at, 0) == Some([])
  {
  }

  lemma {:induction false} EntriesRoundTrip(f: seq<Byte>, at: nat, es: seq<Entry>)
    requires Storable(es) && HasAt(f, at, PrintEntries(es))
    ensures ParseEntries(f, at, |es|) == Some(es)
    decreases |es|
  {
    hide *;
    if es == [] {
      ParseNothing(f, at);
    } else {
      PrintedFirst(f, at, es);
      EntryRoundTrip(f, at, es[0]);
      var next := at + |PrintEntry(es[0])|;
      EntriesRoundTrip(f, next, es[1..]);
      ParsedStep(f, at, |es|, es[0], next, es[1..]);
      assert [es[0]] + es[1..] == es;
    }
  }

  /** A saved registry reads back as it was, whatever bytes follow it in the file. */
  lemma RoundTrip(es: seq<Entry>, tail: seq<Byte>)
    requires Storable(es)
    ensures Parse(Print(es) + tail) == Some(es)
  {
    var f := Print(es) + tail;
    assert HasAt(f, 0, Print(es));
    HasAtSplit(f, 0, PrintWord(|es|), PrintEntries(es));
    HasWord(f, 0, |es|);
    EntriesRoundTrip(f, 4, es);
  }

  /** Saving over any old file, however long, leaves a file that reads back as what was saved. */
  lemma SavedOverReadsBack(old_: seq<Byte>, es: seq<Entry>)
    requires Storable(es)
    ensures Parse(Overwrite(old_, Print(es))) == Some(es)
  {
    var data := Print(es);
    if |data| <= |old_| {
      RoundTrip(es, old_[|data|..]);
    } else {
      RoundTrip(es, []);
      assert data + [] == data;
    }
  }

  /** Two registries with the same file contents are the same registry. */
  lemma PrintInjective(es: seq<Entry>, fs: seq<Entry>)
    requires Storable(es) && Storable(fs) && Print(es) == Print(fs)
    ensures es == fs
  {
    RoundTrip(es, []);
    RoundTrip(fs, []);
  }

  // ----- the layout of the file -----

  /** A 32-bit number in the file, lowest byte first. */
  function Number(f: seq<Byte>, at: nat): nat
    requires at + 4 <= |f|
  {
    f[at] as int + f[at + 1] as int * 0x100 + f[at + 2] as int * 0x1_0000 + f[at + 3] as int * 0x100_0000
  }

  /** Type, length of the name, the name without its zero, length of the value, the value. */
  predicate EntryAt(f: seq<Byte>, at: nat, e: Entry) {
    var value := at + 8 + |e.name|;
    && value + 4 + |e.value| <= |f|
    && Number(f, at) == e.kind
    && Number(f, at + 4) == |e.name| && f[at + 8..value] == e.name
    && Number(f, value) == |e.value| && f[value + 4..value + 4 + |e.value|] == e.value
  }

  /** The entries stand one behind the other, each with twelve bytes of numbers, and end is behind the last. */
  predicate EntriesAt(f: seq<Byte>, at: nat, es: seq<Entry>, end: nat)
    decreases |es|
  {
    if es == [] then end == at
    else EntryAt(f, at, es[0]) && EntriesAt(f, at + 12 + |es[0].name| + |es[0].value|, es[1..], end)
  }

  lemma EntryPrinted(f: seq<Byte>, at: nat, e: Entry)
    requires StorableEntry(e) && HasAt(f, at, PrintEntry(e))
    ensures EntryAt(f, at, e) && |PrintEntry(e)| == 12 + |e.name| + |e.value|
  {
    hide PrintWord, PrintEntry;
    PrintedParts(f, at, e);
    HasWord(f, at, e.kind);
    HasWord(f, at + 4, |e.name|);
    HasWord(f, at + 8 + |e.name|, |e.value|);
  }

  lemma EntriesAtStep(f: seq<Byte>, at: nat, es: seq<Entry>, end: nat)
    requires es != [] && EntryAt(f, at, es[0])
    requires EntriesAt(f, at + 12 + |es[0].name| + |es[0].value|, es[1..], end)
    ensures EntriesAt(f, at, es, end)
  {
    hide EntryAt;
  }

  lemma NothingAt(f: seq<Byte>, at: nat)
    ensures EntriesAt(f, at, [], at) && PrintEntries([]) == []
  {
  }

  lemma {:induction false} EntriesPrinted(f: seq<Byte>, at: nat, es: seq<Entry>)
    requires Storable(es) && HasAt(f, at, PrintEntries(es))
    ensures EntriesAt(f, at, es, at + |PrintEntries(es)|)
    decreases |es|
  {
    hide *;
    if es == [] {
      NothingAt(f, at);
    } else {
      PrintedFirst(f, at, es);
      EntryPrinted(f, at, es[0]);
      EntriesPrinted(f, at + |PrintEntry(es[0])|, es[1..]);
      EntriesAtStep(f, at, es, at + |PrintEntries(es)|);
    }
  }

  /**
   * What a saved file looks like, byte by byte: the number of entries, then the entries one behind the other, and
   * nothing more.
   */
  lemma FileLayout(es: seq<Entry>)
    requires Storable(es)
    ensures |Print(es)| >= 4 && Number(Print(es), 0) == |es|
    ensures EntriesAt(Print(es), 4, es, |Print(es)|)
  {
    var f := Print(es);
    assert HasAt(f, 0, f);
    HasAtSplit(f, 0, PrintWord(|es|), PrintEntries(es));
    hide PrintEntries, EntriesAt, Storable, PrintWord;
    HasWord(f, 0, |es|);
    EntriesPrinted(f, 4, es);
  }

  lemma EntryRead(f: seq<Byte>, at: nat)
    requires ParseEntry(f, at).Some?
    ensures var (e, next) := ParseEntry(f, at).value;
            EntryAt(f, at, e) && StorableEntry(e) && next == at + 12 + |e.name| + |e.value|
  {
    hide ReadWord, Number;
    WordsAgree(f);
  }

  lemma WordsAgree(f: seq<Byte>)
    ensures forall at: nat :: at + 4 <= |f| ==> ReadWord(f, at) == Number(f, at)
  {
  }

  lemma ReadStep(f: seq<Byte>, at: nat, n: nat, es: seq<Entry>)
    requires ParseEntries(f, at, n) == Some(es)
    ensures n == 0 ==> es == [] && EntriesAt(f, at, es, at)
    ensures n != 0 ==>
              && es != [] && EntryAt(f, at, es[0]) && StorableEntry(es[0])
              && ParseEntries(f, at + 12 + |es[0].name| + |es[0].value|, n - 1) == Some(es[1..])
  {
    hide ParseEntry, EntryAt, StorableEntry, ParseEntries;
    ParseUnfold(f, at, n);
    if n != 0 {
      EntryRead(f, at);
    }
  }

  lemma {:induction false} EntriesRead(f: seq<Byte>, at: nat, n: nat, es: seq<Entry>) returns (end: nat)
    requires ParseEntries(f, at, n) == Some(es)
    ensures EntriesAt(f, at, es, end)
    decreases n
  {
    hide *;
    ReadStep(f, at, n, es);
    end := at;
    if n != 0 {
      end := EntriesRead(f, at + 12 + |es[0].name| + |es[0].value|, n - 1, es[1..]);
      EntriesAtStep(f, at, es, end);
    }
  }

  lemma {:induction false} ReadStorable(f: seq<Byte>, at: nat, n: nat, es: seq<Entry>)
    requires ParseEntries(f, at, n) == Some(es)
    ensures |es| == n && forall i :: 0 <= i < n ==> StorableEntry(es[i])
    decreases n
  {
    hide *;
    ReadStep(f, at, n, es);
    if n != 0 {
      ReadStorable(f, at + 12 + |es[0].name| + |es[0].value|, n - 1, es[1..]);
    }
  }

  /** And whatever open_registry can read is laid out like that, down to the last entry it reads. */
  lemma ReadLayout(f: seq<Byte>)
    requires Parse(f).Some?
    ensures |f| >= 4 && Number(f, 0) == |Parse(f).value|
    ensures exists end :: EntriesAt(f, 4, Parse(f).value, end)
    ensures Storable(Parse(f).value)
  {
    WordsAgree(f);
    hide ReadWord, Number, EntriesAt, ParseEntries, StorableEntry;
    ReadStorable(f, 4, Word32(f, 0).value, Parse(f).value);
    var end := EntriesRead(f, 4, Word32(f, 0).value, Parse(f).value);
  }

  // ----- the loops -----

  lemma StorableAppend(es: seq<Entry>, e: Entry)
    requires Storable(es) && |es| + 1 < WORD && StorableEntry(e)
    ensures Storable(es + [e])
  {
  }

  lemma {:induction false} PrintAppend(es: seq<Entry>, e: Entry)
    requires Storable(es) && |es| + 1 < WORD && StorableEntry(e)
    ensures Storable(es + [e]) && PrintEntries(es + [e]) == PrintEntries(es) + PrintEntry(e)
    decreases |es|
  {
    StorableAppend(es, e);
    PrintStep(es + [e]);
    if es == [] {
      assert es + [e] == [e];
    } else {
      PrintStep(es);
      hide PrintEntry, PrintEntries, Storable;
      PrintAppend(es[1..], e);
      assert (es + [e])[1..] == es[1..] + [e];
      assert PrintEntries(es + [e]) == PrintEntry(es[0]) + (PrintEntries(es[1..]) + PrintEntry(e));
    }
  }

  /** save_registry: the bytes written, entry by entry. */
  method SaveRegistry(regs: array<Entry>, size: nat) returns (out: seq<Byte>)
    requires size <= regs.Length && Storable(regs[..size])
    ensures out == Print(regs[..size])
  {
    out := PrintWord(size);
    var i := 0;
    while i < size
      invariant i <= size && Storable(regs[..i])
      invariant out == PrintWord(size) + PrintEntries(regs[..i])
    {
      var e := regs[i];
      assert regs[..size][i] == e;
      PrintAppend(regs[..i], e);
      assert regs[..i + 1] == regs[..i] + [e];
      hide PrintWord, PrintEntries, PrintEntry;
      out := out + PrintEntry(e);
      i := i + 1;
    }
  }

  lemma ParseUnfold(f: seq<Byte>, at: nat, n: nat)
    requires ParseEntries(f, at, n).Some?
    ensures var es := ParseEntries(f, at, n).value;
            if n == 0 then es == []
            else
              && es != [] && ParseEntry(f, at).Some? && ParseEntry(f, at).value.0 == es[0]
              && ParseEntries(f, ParseEntry(f, at).value.1, n - 1) == Some(es[1..])
  {
    hide ParseEntry;
  }

  lemma NextRead(done: seq<Entry>, rest: seq<Entry>, e: Entry, all: seq<Entry>)
    requires rest != [] && e == rest[0] && done + rest == all
    ensures (done + [e]) + rest[1..] == all
  {
  }

  /** open_registry on a file that is there: the entries read, one by one. */
  method OpenRegistry(file: seq<Byte>) returns (regs: array<Entry>, size: nat)
    requires Parse(file).Some?
    ensures fresh(regs) && size == regs.Length && Parse(file) == Some(regs[..size])
  {
    size := ReadWord(file, 0);
    regs := new Entry[size](_ => Entry(0, [], []));
    ghost var all := ParseEntries(file, 4, size).value;
    assert Parse(file) == Some(all);
    ReadEntries(file, regs, all);
    assert regs[..size] == all;
  }

  method ReadEntries(file: seq<Byte>, regs: array<Entry>, ghost all: seq<Entry>)
    requires ParseEntries(file, 4, regs.Length) == Some(all)
    modifies regs
    ensures regs[..] == all
  {
    hide ParseEntry, ParseEntries;
    var i, at := 0, 4;
    ghost var rest := all;
    while i < regs.Length
      invariant i <= regs.Length
      invariant ParseEntries(file, at, regs.Length - i) == Some(rest)
      invariant regs[..i] + rest == all
    {
      ParseUnfold(file, at, regs.Length - i);
      var e := ParseEntry(file, at);
      NextRead(regs[..i], rest, e.value.0, all);
      rest := rest[1..];
      regs[i] := e.value.0;
      assert regs[..i + 1] == regs[..i] + [e.value.0];
      i := i + 1;
      at := e.value.1;
    }
    ParseUnfold(file, at, 0);
    assert regs[..i] + [] == regs[..];
  }
}
