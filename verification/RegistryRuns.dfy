// The emulated registry of loader/registry.c over whole runs of calls: which paths
// have entries, what a query answers, and which handles stay open.
module RegistryRuns {
  import opened MachineWords
  import opened RegistryFile
  import opened Registry

  ghost predicate HasEntry(es: seq<Entry>, p: Path) {
    exists e <- es :: e.name == p
  }

  /** The call writes an entry under the path: it sets a value there, or creates a key. */
  ghost predicate Writes(s: State, c: Call, p: Path) {
    (c.SetValue? || c.Create?) && Names(s.handles, c.key, c.sub, p)
  }

  ghost predicate Written(s: State, run: seq<Call>, p: Path)
    decreases |run|
  {
    run != [] && (Writes(s, run[0], p) || Written(After(s, run[0]), run[1..], p))
  }

  lemma FindIsHas(es: seq<Entry>, p: Path)
    ensures FindValue(es, p) >= 0 <==> HasEntry(es, p)
  {
    if FindValue(es, p) >= 0 {
      assert es[FindValue(es, p)] in es;
    }
  }

  lemma InsertHas(es: seq<Entry>, e: Entry, p: Path)
    ensures HasEntry(Insert(es, e), p) <==> HasEntry(es, p) || e.name == p
  {
    var es' := Insert(es, e);
    var i := FindValue(es, e.name);
    var at := if i >= 0 then i else |es|;
    assert es'[at] == e && e in es';
    forall k | 0 <= k < |es| ensures es'[k].name == es[k].name && es'[k] in es' {
    }
    if HasEntry(es', p) && e.name != p {
      var k :| 0 <= k < |es'| && es'[k].name == p;
      assert es[k] in es;
    }
    if HasEntry(es, p) {
      var k :| 0 <= k < |es| && es[k].name == p;
      assert es'[k] in es';
    }
  }

  lemma CallHas(s: State, c: Call, p: Path)
    ensures HasEntry(After(s, c).entries, p) <==> HasEntry(s.entries, p) || Writes(s, c, p)
  {
    hide HasEntry, Insert, Names, BuildKeyname, FindValue;
    if c.SetValue? || c.Create? {
      KeynameNames(s.handles, c.key, c.sub);
      var full := BuildKeyname(s.handles, c.key, c.sub);
      if full.Some? {
        FindIsHas(s.entries, full.value);
        var e := if c.SetValue? then Entry(c.kind, full.value, c.data) else Entry(DIR, full.value, NEW_KEY_DATA);
        InsertHas(s.entries, e, p);
      }
    }
  }

  /** After any run the paths with an entry are those that had one and those that a call of the run wrote. */
  lemma {:induction false} EntryIff(s: State, run: seq<Call>, p: Path)
    ensures HasEntry(AfterAll(s, run).entries, p) <==> HasEntry(s.entries, p) || Written(s, run, p)
    decreases |run|
  {
    if run != [] {
      CallHas(s, run[0], p);
      hide HasEntry, After, Writes;
      EntryIff(After(s, run[0]), run[1..], p);
    }
  }

  /** What RegQueryValueExA answers after a run of calls. */
  function QueryAfter(s: State, run: seq<Call>, key: Word, sub: Option<Path>, wantData: bool, count: nat): Answer {
    ModelQuery(ModelOf(AfterAll(s, run)), key, sub, wantData, count)
  }

  /** Over every run a query means what it says of the entries and handles then there. */
  lemma QueryMeaning(s: State, run: seq<Call>, key: Word, sub: Option<Path>, wantData: bool, count: nat)
    requires Unique(s.entries)
    ensures var last := AfterAll(s, run);
            Answers(last.entries, last.handles, key, sub, wantData, count, QueryAfter(s, run, key, sub, wantData, count))
  {
    hide Unique, Answers, StoreOf, ModelQuery;
    RunRefines(s, run);
    var last := AfterAll(s, run);
    QueryAnswers(last.entries, last.handles, last.zz, key, sub, wantData, count);
  }

  /**
   * Over every run: a query answers 2 exactly when its handle is open and the full path had no entry at the start and
   * was written by no call of the run; it answers 1 exactly when no open handle has the number.
   */
  lemma MissingIff(s: State, run: seq<Call>, key: Word, sub: Option<Path>, wantData: bool, count: nat)
    requires Unique(s.entries)
    ensures var a := QueryAfter(s, run, key, sub, wantData, count);
            var hs := AfterAll(s, run).handles;
            && (a.status == 1 <==> forall h <- hs :: h.key != key)
            && (a.status == 2 <==>
                  exists p :: Names(hs, key, sub, p) && !HasEntry(s.entries, p) && !Written(s, run, p))
            && (a.status == 1 || a.status == 2 ==> a.data == [] && a.count == count)
            && (a.status != 1 && a.status != 2 ==> a.status == if count < a.count then 234 else 0)
  {
    QueryMeaning(s, run, key, sub, wantData, count);
    var last := AfterAll(s, run);
    KeynameNames(last.handles, key, sub);
    hide Unique, Names, Written, AfterAll, QueryAfter, BuildKeyname;
    var a := QueryAfter(s, run, key, sub, wantData, count);
    if (exists h <- last.handles :: h.key == key) {
      var p := BuildKeyname(last.handles, key, sub).value;
      assert Names(last.handles, key, sub, p);
      EntryIff(s, run, p);
      assert a.status == 2 <==> !HasEntry(last.entries, p);
      forall q | Names(last.handles, key, sub, q) ensures q == p {
      }
      if a.status == 2 {
        assert Names(last.handles, key, sub, p) && !HasEntry(s.entries, p) && !Written(s, run, p);
      }
    }
  }

  /**
   * Creating a key leaves an existing entry of that path alone and otherwise appends one of type -25 holding the four
   * bytes of 45708; either way the newest handle then has the path. With no open handle of that number nothing changes.
   */
  lemma CreateMakesKey(s: State, key: Word, sub: Option<Path>)
    ensures var s' := After(s, Create(key, sub));
            && ((forall h <- s.handles :: h.key != key) ==> s' == s)
            && (forall p :: Names(s.handles, key, sub, p) ==>
                  && s'.handles == s.handles + [Handle(s'.zz, p)]
                  && (HasEntry(s.entries, p) ==> s'.entries == s.entries)
                  && (!HasEntry(s.entries, p) ==>
                        s'.entries == s.entries + [Entry(WORD - 25, p, [45708 % 256, 45708 / 256, 0, 0])]))
  {
    KeynameNames(s.handles, key, sub);
    var full := BuildKeyname(s.handles, key, sub);
    hide HasEntry, Names, BuildKeyname, FindValue, NextHandle;
    if full.Some? {
      FindIsHas(s.entries, full.value);
    }
  }

  // ----- handles -----

  /** Closing the handle an open has just given leaves the list of handles as it was. */
  lemma CloseUndoesOpen(s: State, key: Word, sub: Option<Path>)
    requires exists h <- s.handles :: h.key == key
    ensures var t := After(s, Open(key, sub));
            && |t.handles| == |s.handles| + 1 && t.handles[..|s.handles|] == s.handles
            && t.handles[|s.handles|].key == t.zz
            && Names(s.handles, key, sub, t.handles[|s.handles|].name)
            && t.entries == s.entries
            && After(t, Close(t.zz)).handles == s.handles
            && After(t, Close(t.zz)).entries == s.entries
  {
    KeynameNames(s.handles, key, sub);
    hide BuildKeyname, Names;
    var t := After(s, Open(key, sub));
    assert FindHandle(t.handles, t.zz) == |s.handles|;
  }

  /** The newest handle with the number of a root key stands for that root. */
  ghost predicate RootsOpen(hs: seq<Handle>) {
    && (exists i: nat :: Newest(hs, 0x8000_0002, i) && Spells(hs[i].name, "HKLM"))
    && (exists i: nat :: Newest(hs, 0x8000_0001, i) && Spells(hs[i].name, "HKCU"))
  }

  lemma NewestAppended(hs: seq<Handle>, h: Handle, key: Word, i: nat)
    requires Newest(hs, key, i) && h.key != key
    ensures Newest(hs + [h], key, i) && (hs + [h])[i] == hs[i]
  {
  }

  lemma NewestRemoved(hs: seq<Handle>, k: nat, key: Word, i: nat)
    requires Newest(hs, key, i) && k < |hs| && hs[k].key != key
    ensures var j := if k < i then i - 1 else i;
            Newest(hs[..k] + hs[k + 1..], key, j) && (hs[..k] + hs[k + 1..])[j] == hs[i]
  {
  }

  lemma AppendKeepsRoots(hs: seq<Handle>, h: Handle)
    requires RootsOpen(hs) && Ordinary(h.key)
    ensures RootsOpen(hs + [h])
  {
    hide Spells;
    var i: nat :| Newest(hs, 0x8000_0002, i) && Spells(hs[i].name, "HKLM");
    var j: nat :| Newest(hs, 0x8000_0001, j) && Spells(hs[j].name, "HKCU");
    NewestAppended(hs, h, 0x8000_0002, i);
    NewestAppended(hs, h, 0x8000_0001, j);
  }

  lemma RemoveKeepsRoots(hs: seq<Handle>, k: nat)
    requires RootsOpen(hs) && k < |hs| && Ordinary(hs[k].key)
    ensures RootsOpen(hs[..k] + hs[k + 1..])
  {
    hide Spells;
    var i: nat :| Newest(hs, 0x8000_0002, i) && Spells(hs[i].name, "HKLM");
    var j: nat :| Newest(hs, 0x8000_0001, j) && Spells(hs[j].name, "HKCU");
    NewestRemoved(hs, k, 0x8000_0002, i);
    NewestRemoved(hs, k, 0x8000_0001, j);
  }

  lemma CallKeepsRoots(s: State, c: Call)
    requires RootsOpen(s.handles)
    ensures RootsOpen(After(s, c).handles)
  {
    hide RootsOpen, BuildKeyname, Insert, FindValue;
    var hs := s.handles;
    match c {
      case Close(key) =>
        var i := FindHandle(hs, key);
        if i >= 0 && Ordinary(key) {
          RemoveKeepsRoots(hs, i);
        }
      case SetValue(_, _, _, _) =>
      case _ =>
        var full := BuildKeyname(hs, c.key, c.sub);
        if full.Some? {
          AppendKeepsRoots(hs, Handle(NextHandle(s.zz), full.value));
        }
    }
  }

  lemma {:induction false} RootsKept(s: State, run: seq<Call>)
    requires RootsOpen(s.handles)
    ensures RootsOpen(AfterAll(s, run).handles)
    decreases |run|
  {
    if run != [] {
      CallKeepsRoots(s, run[0]);
      hide RootsOpen, After;
      RootsKept(After(s, run[0]), run[1..]);
    }
  }

  /** Whatever is opened, created and closed, the two predefined keys always stand for the roots HKLM and HKCU. */
  lemma RootsAlways(entries: seq<Entry>, run: seq<Call>)
    ensures RootsOpen(AfterAll(State(entries, ROOT_HANDLES, FIRST_HANDLE), run).handles)
  {
    assert Newest(ROOT_HANDLES, 0x8000_0002, 0) && Spells(ROOT_HANDLES[0].name, "HKLM");
    assert Newest(ROOT_HANDLES, 0x8000_0001, 1) && Spells(ROOT_HANDLES[1].name, "HKCU");
    RootsKept(State(entries, ROOT_HANDLES, FIRST_HANDLE), run);
  }

  /** A registry without a file starts with the entries of the two roots, of type -25 and empty. */
  lemma FreshRoots()
    ensures |ROOTS| == 2 && Spells(ROOTS[0].name, "HKLM") && Spells(ROOTS[1].name, "HKCU")
    ensures forall e <- ROOTS :: e.kind == WORD - 25 && e.value == []
  {
  }
}
