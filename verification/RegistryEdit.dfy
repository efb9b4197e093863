// Deleting from the registry in place: remove_key and hier_remove_key of loader/modify_reg.c.
module RegistryEdit {
  import opened MachineWords
  import opened RegistryFile
  import opened Registry

  /** strncmp(name, prefix, strlen(prefix)) == 0. */
  predicate StartsWith(name: Path, prefix: Path) {
    prefix <= name
  }

  /** The entries whose name does not start with the prefix, in their old order. */
  function Survivors(es: seq<Entry>, prefix: Path): seq<Entry>
    decreases |es|
  {
    if es == [] then []
    else
      var rest := Survivors(es[..|es| - 1], prefix);
      if StartsWith(es[|es| - 1].name, prefix) then rest else rest + [es[|es| - 1]]
  }

  /** How many survivors there are among the first k entries: the place of entry k, if it survives. */
  function Place(es: seq<Entry>, prefix: Path, k: nat): nat
    requires k <= |es|
  {
    |Survivors(es[..k], prefix)|
  }

  /** The deletion is an exact stable filter: every survivor is in its place, and nothing else is left. */
  lemma {:induction false} SurvivorsInPlace(es: seq<Entry>, prefix: Path)
    ensures forall k :: 0 <= k < |es| && !StartsWith(es[k].name, prefix) ==>
              Place(es, prefix, k) < |Survivors(es, prefix)| && Survivors(es, prefix)[Place(es, prefix, k)] == es[k]
    ensures forall e :: e in Survivors(es, prefix) <==> e in es && !StartsWith(e.name, prefix)
    decreases |es|
  {
    if es != [] {
      var n := |es| - 1;
      SurvivorsInPlace(es[..n], prefix);
      assert es == es[..n] + [es[n]];
      forall k | 0 <= k < n && !StartsWith(es[k].name, prefix)
        ensures Place(es, prefix, k) < |Survivors(es, prefix)| && Survivors(es, prefix)[Place(es, prefix, k)] == es[k]
      {
        assert es[..n][..k] == es[..k];
        assert es[..n][k] == es[k];
      }
    }
  }

  lemma UniqueSnoc(es: seq<Entry>, e: Entry)
    ensures Unique(es + [e]) <==> Unique(es) && forall x <- es :: x.name != e.name
  {
    var fs := es + [e];
    if Unique(fs) {
      forall i | 0 <= i < |es| ensures es[i].name != e.name {
        assert fs[i] == es[i] && fs[|es|] == e;
      }
      forall i, j | 0 <= i < j < |es| ensures es[i].name != es[j].name {
        assert fs[i] == es[i] && fs[j] == es[j];
      }
    }
  }

  lemma {:induction false} SurvivorsUnique(es: seq<Entry>, prefix: Path)
    requires Unique(es)
    ensures Unique(Survivors(es, prefix))
    decreases |es|
  {
    if es != [] {
      hide Unique, StartsWith;
      var n := |es| - 1;
      assert es == es[..n] + [es[n]];
      UniqueSnoc(es[..n], es[n]);
      SurvivorsUnique(es[..n], prefix);
      SurvivorsInPlace(es[..n], prefix);
      UniqueSnoc(Survivors(es[..n], prefix), es[n]);
    }
  }

  lemma SurvivorsStorable(es: seq<Entry>, prefix: Path)
    requires Storable(es)
    ensures Storable(Survivors(es, prefix)) && |Survivors(es, prefix)| <= |es|
    decreases |es|
  {
    if es != [] {
      SurvivorsStorable(es[..|es| - 1], prefix);
    }
  }

  lemma StoreMembers(es: seq<Entry>)
    requires Unique(es)
    ensures forall e <- es :: e.name in StoreOf(es) && StoreOf(es)[e.name] == (e.kind, e.value)
    ensures forall p :: p in StoreOf(es) ==> exists e :: e in es && e.name == p
  {
    StoreHas(es);
    hide StoreOf;
    forall p | p in StoreOf(es) ensures exists e :: e in es && e.name == p {
      var i :| 0 <= i < |es| && es[i].name == p;
      assert es[i] in es;
    }
  }

  /** Filtering entries by name filters the store by path. */
  lemma StoreFiltered(es: seq<Entry>, fs: seq<Entry>, keep: Path -> bool)
    requires Unique(es) && Unique(fs)
    requires forall e :: e in fs <==> e in es && keep(e.name)
    ensures StoreOf(fs) == map p | p in StoreOf(es) && keep(p) :: StoreOf(es)[p]
  {
    StoreMembers(es);
    StoreMembers(fs);
    hide StoreOf, Unique;
    var s, t := StoreOf(es), StoreOf(fs);
    forall p | p in t ensures p in s && keep(p) && t[p] == s[p] {
      var e :| e in fs && e.name == p;
      assert e in es;
    }
    forall p | p in s && keep(p) ensures p in t {
      var e :| e in es && e.name == p;
      assert e in fs;
    }
  }

  /** On the store a hierarchical delete removes exactly the paths that start with the prefix. */
  lemma HierRemoveOnStore(es: seq<Entry>, prefix: Path)
    requires Unique(es)
    ensures StoreOf(Survivors(es, prefix)) == map p | p in StoreOf(es) && !StartsWith(p, prefix) :: StoreOf(es)[p]
  {
    SurvivorsUnique(es, prefix);
    SurvivorsInPlace(es, prefix);
    hide Unique, Survivors, StoreOf, StartsWith;
    StoreFiltered(es, Survivors(es, prefix), p => !StartsWith(p, prefix));
  }

  /** The key itself or something below it. */
  predicate Below(name: Path, key: Path) {
    name == key || Join(key, []) <= name
  }

  /** Only the key and what is below it goes exactly when no other entry's name begins with the key's name. */
  lemma HierRemoveIsSubtreeIff(es: seq<Entry>, key: Path)
    ensures (forall e :: e in Survivors(es, key) <==> e in es && !Below(e.name, key))
            <==> (forall e :: e in es && StartsWith(e.name, key) ==> Below(e.name, key))
  {
    SurvivorsInPlace(es, key);
    forall e: Entry | Below(e.name, key) ensures StartsWith(e.name, key) {
      assert key <= Join(key, []);
    }
    if forall e :: e in Survivors(es, key) <==> e in es && !Below(e.name, key) {
      forall e | e in es && StartsWith(e.name, key) ensures Below(e.name, key) {
        assert e !in Survivors(es, key);
      }
    }
  }

  /** Deleting the key A takes its sibling AB with it. */
  lemma HierRemoveTakesSiblings()
    ensures var a, ab := Entry(DIR, [65], []), Entry(DIR, [65, 66], []);
            !Below(ab.name, a.name) && Survivors([a, ab], a.name) == []
  {
    var a, ab := Entry(DIR, [65], []), Entry(DIR, [65, 66], []);
    assert Join(a.name, []) == [65, 92];
    assert Join(a.name, [])[1] != ab.name[1];
    assert [a, ab][..1] == [a] && [a][..0] == [];
    assert Survivors([a], a.name) == [];
  }

  /** The array without entry i. */
  function RemoveAt(es: seq<Entry>, i: nat): seq<Entry>
    requires i < |es|
  {
    es[..i] + es[i + 1..]
  }

  lemma RemoveAtMembers(es: seq<Entry>, i: nat)
    requires Unique(es) && i < |es|
    ensures Unique(RemoveAt(es, i))
    ensures forall e :: e in RemoveAt(es, i) <==> e in es && e.name != es[i].name
  {
    var fs := RemoveAt(es, i);
    forall j | 0 <= j < |fs| ensures fs[j] == es[if j < i then j else j + 1] && fs[j].name != es[i].name {
    }
    forall e | e in es && e.name != es[i].name ensures e in fs {
      var k :| 0 <= k < |es| && es[k] == e;
      assert fs[if k < i then k else k - 1] == e;
    }
  }

  /** On the store, removing one entry removes its path and nothing else. */
  lemma RemoveOnStore(es: seq<Entry>, i: nat)
    requires Unique(es) && i < |es|
    ensures Unique(RemoveAt(es, i))
    ensures StoreOf(RemoveAt(es, i)) == StoreOf(es) - {es[i].name}
  {
    RemoveAtMembers(es, i);
    hide StoreOf, Unique, RemoveAt;
    StoreWithout(es, RemoveAt(es, i), es[i].name);
  }

  lemma StoreWithout(es: seq<Entry>, fs: seq<Entry>, name: Path)
    requires Unique(es) && Unique(fs)
    requires forall e :: e in fs <==> e in es && e.name != name
    ensures StoreOf(fs) == StoreOf(es) - {name}
  {
    hide StoreOf, Unique;
    StoreFiltered(es, fs, p => p != name);
  }

  lemma RemoveAtStorable(es: seq<Entry>, i: nat)
    requires Storable(es) && i < |es|
    ensures Storable(RemoveAt(es, i)) && |RemoveAt(es, i)| == |es| - 1
  {
  }

  /** The outer loop has filtered the first done entries down to i, and the rest follows unchanged. */
  ghost predicate Filtering(es: seq<Entry>, prefix: Path, done: nat, i: nat, now: seq<Entry>) {
    && done <= |es| && i == |Survivors(es[..done], prefix)|
    && now == Survivors(es[..done], prefix) + es[done..]
  }

  lemma FilterBegins(es: seq<Entry>, prefix: Path)
    ensures Filtering(es, prefix, 0, 0, es)
  {
  }

  lemma FilterStep(es: seq<Entry>, prefix: Path, done: nat, i: nat, now: seq<Entry>)
    requires Filtering(es, prefix, done, i, now) && i < |now|
    ensures if StartsWith(now[i].name, prefix) then Filtering(es, prefix, done + 1, i, RemoveAt(now, i))
            else Filtering(es, prefix, done + 1, i + 1, now)
  {
    hide StartsWith;
    var kept := Survivors(es[..done], prefix);
    assert now[i] == es[done];
    assert es[..done + 1][..done] == es[..done];
    assert now[..i] == kept && now[i + 1..] == es[done + 1..];
  }

  lemma FilterEnds(es: seq<Entry>, prefix: Path, done: nat, i: nat, now: seq<Entry>)
    requires Filtering(es, prefix, done, i, now) && i == |now|
    ensures now == Survivors(es, prefix)
  {
    assert es[..done] == es;
  }

  // ----- the code -----

  /** The inner loop of both functions: move everything behind i down by one. */
  method CloseGap(regs: array<Entry>, i: nat, size: nat)
    requires i < size <= regs.Length
    modifies regs
    ensures regs[..size - 1] == RemoveAt(old(regs[..size]), i)
  {
    ghost var es := regs[..size];
    var j := i;
    while j < size - 1
      invariant i <= j <= size - 1
      invariant forall k :: 0 <= k < i ==> regs[k] == es[k]
      invariant forall k :: i <= k < j ==> regs[k] == es[k + 1]
      invariant forall k :: j <= k < size ==> regs[k] == es[k]
    {
      assert regs[j + 1] == es[j + 1];
      regs[j] := regs[j + 1];
      j := j + 1;
    }
    forall k | 0 <= k < size - 1 ensures regs[k] == RemoveAt(es, i)[k] {
    }
  }

  /** hier_remove_key, for the full path of the key. */
  method HierRemoveKey(r: WindowsRegistry, prefix: Path)
    requires r.Valid()
    modifies r`regSize, r`file, r.regs
    ensures r.Valid() && r.Entries() == Survivors(old(r.Entries()), prefix)
  {
    ghost var es := r.Entries();
    hide Unique, Storable, Parse, StartsWith, RemoveAt, Filtering, Survivors;
    SurvivorsUnique(es, prefix);
    SurvivorsStorable(es, prefix);
    FilterBegins(es, prefix);
    FilterInPlace(r, prefix, es);
    r.Save();
  }

  /** The outer loop. */
  method FilterInPlace(r: WindowsRegistry, prefix: Path, ghost es: seq<Entry>)
    requires r.regSize <= r.regs.Length && r.Entries() == es && Filtering(es, prefix, 0, 0, es)
    modifies r`regSize, r.regs
    ensures r.regSize <= r.regs.Length && r.Entries() == Survivors(es, prefix)
  {
    hide StartsWith, RemoveAt, Filtering, Survivors;
    var i := 0;
    ghost var done := 0;
    while i < r.regSize
      invariant 0 <= i <= r.regSize <= r.regs.Length
      invariant Filtering(es, prefix, done, i, r.regs[..r.regSize])
      decreases r.regSize - i
    {
      FilterStep(es, prefix, done, i, r.regs[..r.regSize]);
      if StartsWith(r.regs[i].name, prefix) {
        CloseGap(r.regs, i, r.regSize);
        r.regSize := r.regSize - 1;
      } else {
        i := i + 1;
      }
      done := done + 1;
    }
    FilterEnds(es, prefix, done, i, r.regs[..r.regSize]);
  }

  /**
   * remove_key, for the full path of the entry: the search of find_value_by_name, and a save only when it finds one.
   */
  method RemoveKey(r: WindowsRegistry, name: Path)
    requires r.Valid()
    modifies r`regSize, r`file, r.regs
    ensures r.Valid()
    ensures StoreOf(r.Entries()) == StoreOf(old(r.Entries())) - {name}
    ensures var i := FindValue(old(r.Entries()), name);
            r.Entries() == if i >= 0 then RemoveAt(old(r.Entries()), i) else old(r.Entries())
  {
    ghost var es := r.Entries();
    FindIsLookup(es, name);
    hide Unique, Storable, Parse, StoreOf;
    var i := r.FindValueByName(name);
    if i == -1 {
      RemoveNothing(StoreOf(es), name);
      return;
    }
    RemoveFound(r, i);
  }

  lemma RemoveNothing(s: Store, name: Path)
    requires name !in s
    ensures s - {name} == s
  {
  }

  method RemoveFound(r: WindowsRegistry, i: nat)
    requires r.Valid() && i < r.regSize
    modifies r`regSize, r`file, r.regs
    ensures r.Valid() && r.Entries() == RemoveAt(old(r.Entries()), i)
    ensures StoreOf(r.Entries()) == StoreOf(old(r.Entries())) - {old(r.regs[i]).name}
  {
    RemoveOnStore(r.Entries(), i);
    RemoveAtStorable(r.Entries(), i);
    hide Unique, Storable, Parse, StoreOf, RemoveAt;
    CloseGap(r.regs, i, r.regSize);
    r.regSize := r.regSize - 1;
    r.Save();
  }
}
