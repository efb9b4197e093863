// The emulated registry of loader/registry.c: one flat array of full paths and a
// list of open handles, which together act as a store keyed by path.
module Registry {
  import opened MachineWords
  import opened RegistryFile

  const DIR: Word := 0xFFFF_FFE7  // -25
  const NEW_KEY_DATA: seq<Byte> := [0x8C, 0xB2, 0, 0]  // 45708

  const HKEY_CURRENT_USER: Word := 0x8000_0001
  const HKEY_LOCAL_MACHINE: Word := 0x8000_0002
  const FIRST_HANDLE: Word := 249

  const ERROR_MORE_DATA := 234

  const BACKSLASH: Byte := 92
  const HKLM: seq<Byte> := [72, 75, 76, 77]
  const HKCU: seq<Byte> := [72, 75, 67, 85]
  const DEFAULT: seq<Byte> := [60, 100, 101, 102, 97, 117, 108, 116, 62]

  type Path = seq<Byte>

  datatype Handle = Handle(key: Word, name: Path)

  /** What the program knows: the array, the open handles (newest last), and the counter behind new handles. */
  datatype State = State(entries: seq<Entry>, handles: seq<Handle>, zz: Word)

  // ----- lookups -----

  /** The newest handle with this number, as its index, or -1. */
  function FindHandle(hs: seq<Handle>, key: Word): (i: int)
    ensures -1 <= i < |hs|
    ensures i >= 0 ==> hs[i].key == key
    ensures forall j :: i < j < |hs| ==> hs[j].key != key
    decreases |hs|
  {
    if hs == [] then -1
    else if hs[|hs| - 1].key == key then |hs| - 1
    else FindHandle(hs[..|hs| - 1], key)
  }

  function Join(name: Path, sub: Path): Path {
    name + [BACKSLASH] + sub
  }

  /** The full path a handle and a subkey name denote; None for a handle that is not open. */
  function BuildKeyname(hs: seq<Handle>, key: Word, sub: Option<Path>): Option<Path> {
    var i := FindHandle(hs, key);
    if i == -1 then None else Some(Join(hs[i].name, if sub.None? then DEFAULT else sub.value))
  }

  /** The first entry with this name, as its index, or -1. */
  function FindValue(es: seq<Entry>, name: Path): (i: int)
    ensures -1 <= i < |es|
    ensures i >= 0 ==> es[i].name == name
    ensures forall j :: 0 <= j < (if i >= 0 then i else |es|) ==> es[j].name != name
    decreases |es|
  {
    if es == [] then -1
    else
      var i := FindValue(es[..|es| - 1], name);
      if i >= 0 then i else if es[|es| - 1].name == name then |es| - 1 else -1
  }

  /** insert_reg_value: replace the entry of that name where it stands, or append a new one. */
  function Insert(es: seq<Entry>, e: Entry): seq<Entry> {
    var i := FindValue(es, e.name);
    if i >= 0 then es[i := e] else es + [e]
  }

  /** generate_handle: the next number that is neither of the two predefined keys. */
  function NextHandle(zz: Word): Word {
    var a := (zz + 1) % WORD;
    if a == HKEY_CURRENT_USER then a + 2 else if a == HKEY_LOCAL_MACHINE then a + 1 else a
  }

  // ----- the store the array stands for -----

  type Store = map<Path, (Word, seq<Byte>)>

  predicate Unique(es: seq<Entry>) {
    forall i, j :: 0 <= i < j < |es| ==> es[i].name != es[j].name
  }

  function StoreOf(es: seq<Entry>): Store
    decreases |es|
  {
    if es == [] then map[]
    else
      var e := es[|es| - 1];
      StoreOf(es[..|es| - 1])[e.name := (e.kind, e.value)]
  }

  /** With unique names the store has exactly the entries of the array. */
  lemma {:induction false} StoreHas(es: seq<Entry>)
    requires Unique(es)
    ensures forall i :: 0 <= i < |es| ==> es[i].name in StoreOf(es) && StoreOf(es)[es[i].name] == (es[i].kind, es[i].value)
    ensures forall p :: p in StoreOf(es) ==> exists i :: 0 <= i < |es| && es[i].name == p
    decreases |es|
  {
    if es != [] {
      var n := |es| - 1;
      StoreHas(es[..n]);
      var s := StoreOf(es);
      forall i | 0 <= i < |es| ensures es[i].name in s && s[es[i].name] == (es[i].kind, es[i].value) {
        if i < n {
          assert es[..n][i] == es[i];
        }
      }
      forall p | p in s ensures exists i :: 0 <= i < |es| && es[i].name == p {
        if p == es[n].name {
        } else {
          var i :| 0 <= i < n && es[..n][i].name == p;
          assert es[i].name == p;
        }
      }
    }
  }

  /** A lookup in the array is a lookup in the store. */
  lemma FindIsLookup(es: seq<Entry>, p: Path)
    requires Unique(es)
    ensures FindValue(es, p) >= 0 <==> p in StoreOf(es)
    ensures FindValue(es, p) >= 0 ==>
              StoreOf(es)[p] == (es[FindValue(es, p)].kind, es[FindValue(es, p)].value)
  {
    StoreHas(es);
  }

  /** An insertion keeps names unique and is one update of the store. */
  lemma InsertIsUpdate(es: seq<Entry>, e: Entry)
    requires Unique(es)
    ensures Unique(Insert(es, e))
    ensures StoreOf(Insert(es, e)) == StoreOf(es)[e.name := (e.kind, e.value)]
  {
    var i := FindValue(es, e.name);
    if i >= 0 {
      ReplaceIsUpdate(es, i, e);
    } else {
      assert Insert(es, e)[..|es|] == es;
    }
  }

  lemma ReplaceIsUpdate(es: seq<Entry>, i: nat, e: Entry)
    requires Unique(es) && i < |es| && es[i].name == e.name
    ensures Unique(es[i := e]) && StoreOf(es[i := e]) == StoreOf(es)[e.name := (e.kind, e.value)]
  {
    var es' := es[i := e];
    forall j | 0 <= j < |es| ensures es'[j].name == es[j].name {
    }
    StoreHas(es);
    StoreHas(es');
    hide StoreOf, Unique;
    var s, s' := StoreOf(es), StoreOf(es');
    forall p | p in s' ensures p in s && s'[p] == s[e.name := (e.kind, e.value)][p] {
      var j :| 0 <= j < |es'| && es'[j].name == p;
      assert es[j].name == p;
    }
    forall p | p in s ensures p in s' {
      var j :| 0 <= j < |es| && es[j].name == p;
      assert es'[j].name == p;
    }
  }

  // ----- the entry points, as changes of the state -----

  datatype Call =
    | Open(key: Word, sub: Option<Path>)
    | Close(key: Word)
    | Create(key: Word, sub: Option<Path>)
    | SetValue(key: Word, sub: Option<Path>, kind: Word, data: seq<Byte>)

  function OpenHandle(s: State, name: Path): State {
    s.(handles := s.handles + [Handle(NextHandle(s.zz), name)], zz := NextHandle(s.zz))
  }

  function After(s: State, c: Call): State {
    match c
    case Open(key, sub) =>
      var full := BuildKeyname(s.handles, key, sub);
      if full.None? then s else OpenHandle(s, full.value)
    case Close(key) =>
      var i := FindHandle(s.handles, key);
      if key == HKEY_LOCAL_MACHINE || key == HKEY_CURRENT_USER || i == -1 then s
      else s.(handles := s.handles[..i] + s.handles[i + 1..])
    case Create(key, sub) =>
      var full := BuildKeyname(s.handles, key, sub);
      if full.None? then s
      else if FindValue(s.entries, full.value) >= 0 then OpenHandle(s, full.value)
      else OpenHandle(s.(entries := Insert(s.entries, Entry(DIR, full.value, NEW_KEY_DATA))), full.value)
    case SetValue(key, sub, kind, data) =>
      var full := BuildKeyname(s.handles, key, sub);
      if full.None? then s else s.(entries := Insert(s.entries, Entry(kind, full.value, data)))
  }

  /**
   * What a query answers: a status, and on success or a short buffer the type, the bytes copied, and the true length.
   */
  datatype Answer = Answer(status: int, kind: Word, data: seq<Byte>, count: nat)

  function Min(a: nat, b: nat): nat {
    if a < b then a else b
  }

  // ----- the same calls on a store keyed by path -----

  datatype Model = Model(store: Store, handles: seq<Handle>, zz: Word)

  function ModelOf(s: State): Model {
    Model(StoreOf(s.entries), s.handles, s.zz)
  }

  /** A set is one map update; a create is one if the path is new; opening and closing leave the store alone. */
  function ModelAfter(m: Model, c: Call): Model {
    var next := NextHandle(m.zz);
    match c
    case Open(key, sub) =>
      var full := BuildKeyname(m.handles, key, sub);
      if full.None? then m else m.(handles := m.handles + [Handle(next, full.value)], zz := next)
    case Close(key) =>
      var i := FindHandle(m.handles, key);
      if key == HKEY_LOCAL_MACHINE || key == HKEY_CURRENT_USER || i == -1 then m
      else m.(handles := m.handles[..i] + m.handles[i + 1..])
    case Create(key, sub) =>
      var full := BuildKeyname(m.handles, key, sub);
      if full.None? then m
      else
        var store := if full.value in m.store then m.store else m.store[full.value := (DIR, NEW_KEY_DATA)];
        Model(store, m.handles + [Handle(next, full.value)], next)
    case SetValue(key, sub, kind, data) =>
      var full := BuildKeyname(m.handles, key, sub);
      if full.None? then m else m.(store := m.store[full.value := (kind, data)])
  }

  /** RegQueryValueExA in terms of the store. */
  function ModelQuery(m: Model, key: Word, sub: Option<Path>, wantData: bool, count: nat): Answer {
    var full := BuildKeyname(m.handles, key, sub);
    if full.None? then Answer(1, 0, [], count)
    else if full.value !in m.store then Answer(2, 0, [], count)
    else
      var (kind, value) := m.store[full.value];
      Answer(if count < |value| then ERROR_MORE_DATA else 0, kind,
             if wantData then value[..Min(|value|, count)] else [], |value|)
  }

  // ----- what a query means, on the array and the handle list themselves -----

  /** The bytes are this text. */
  predicate Spells(p: Path, text: string) {
    |p| == |text| && forall i :: 0 <= i < |p| ==> p[i] == text[i] as int
  }

  /** The handle at i is the one a lookup of the number meets first. */
  predicate Newest(hs: seq<Handle>, key: Word, i: nat) {
    i < |hs| && hs[i].key == key && forall j :: i < j < |hs| ==> hs[j].key != key
  }

  /** p is the handle's path, a backslash, and the subkey's name, or "<default>" when there is none. */
  predicate FullPath(p: Path, name: Path, sub: Option<Path>) {
    && |p| > |name| && p[..|name|] == name
    && Spells(p[|name|..|name| + 1], "\\")
    && (sub.Some? ==> p[|name| + 1..] == sub.value)
    && (sub.None? ==> Spells(p[|name| + 1..], "<default>"))
  }

  ghost predicate Names(hs: seq<Handle>, key: Word, sub: Option<Path>, p: Path) {
    exists i: nat :: Newest(hs, key, i) && FullPath(p, hs[i].name, sub)
  }

  /** A query is answered with the entry's type, its true length, and as many of its bytes as were asked for and fit. */
  predicate Delivers(a: Answer, e: Entry, wantData: bool, count: nat) {
    && a.kind == e.kind && a.count == |e.value|
    && a.status == (if count < |e.value| then 234 else 0)
    && a.data == if !wantData then [] else if count < |e.value| then e.value[..count] else e.value
  }

  /**
   * The answer 1 says that no open handle has the number, 2 that no entry has the full path, and neither touches the
   * caller's variables; any other answer delivers the entry.
   */
  ghost predicate Answers(es: seq<Entry>, hs: seq<Handle>, key: Word, sub: Option<Path>, wantData: bool, count: nat,
                          a: Answer)
  {
    && (a.status == 1 <==> forall h <- hs :: h.key != key)
    && (a.status == 1 || a.status == 2 ==> a.data == [] && a.count == count && a.kind == 0)
    && (forall p :: Names(hs, key, sub, p) ==>
          && (a.status == 2 <==> forall e <- es :: e.name != p)
          && (forall e <- es :: e.name == p ==> Delivers(a, e, wantData, count)))
  }

  lemma FindIsNewest(hs: seq<Handle>, key: Word)
    ensures FindHandle(hs, key) >= 0 ==> hs[FindHandle(hs, key)] in hs && Newest(hs, key, FindHandle(hs, key))
    ensures FindHandle(hs, key) < 0 ==> forall h <- hs :: h.key != key
  {
  }

  /** The full path is the only one the handle and the name denote, and there is one exactly for an open handle. */
  lemma KeynameNames(hs: seq<Handle>, key: Word, sub: Option<Path>)
    ensures BuildKeyname(hs, key, sub).None? <==> forall h <- hs :: h.key != key
    ensures forall p :: BuildKeyname(hs, key, sub) == Some(p) <==> Names(hs, key, sub, p)
  {
    var i := FindHandle(hs, key);
    FindIsNewest(hs, key);
    hide FindHandle;
    if i >= 0 {
      FullPathOf(hs[i].name, sub);
      hide FullPath;
      var p := BuildKeyname(hs, key, sub).value;
      assert FullPath(p, hs[i].name, sub);
      forall q | Names(hs, key, sub, q) ensures q == p {
        var j: nat :| Newest(hs, key, j) && FullPath(q, hs[j].name, sub);
        FullPathUnique(p, q, hs[i].name, sub);
      }
    }
  }

  lemma FullPathOf(name: Path, sub: Option<Path>)
    ensures FullPath(Join(name, if sub.None? then DEFAULT else sub.value), name, sub)
  {
  }

  lemma FullPathUnique(p: Path, q: Path, name: Path, sub: Option<Path>)
    requires FullPath(p, name, sub) && FullPath(q, name, sub)
    ensures p == q
  {
    var n := |name|;
    assert p == p[..n] + p[n..n + 1] + p[n + 1..];
    assert q == q[..n] + q[n..n + 1] + q[n + 1..];
    assert p[n + 1..] == q[n + 1..];
  }

  lemma FoundAnswers(es: seq<Entry>, m: Model, key: Word, sub: Option<Path>, wantData: bool, count: nat, p: Path)
    requires Unique(es) && m.store == StoreOf(es) && BuildKeyname(m.handles, key, sub) == Some(p)
    ensures var a := ModelQuery(m, key, sub, wantData, count);
            && (a.status == 2 <==> forall e <- es :: e.name != p)
            && (a.status == 2 ==> a == Answer(2, 0, [], count))
            && (forall e <- es :: e.name == p ==> Delivers(a, e, wantData, count))
  {
    StoreHas(es);
    hide Unique, StoreOf, BuildKeyname;
    if p in m.store {
      var i :| 0 <= i < |es| && es[i].name == p;
      assert es[i] in es;
    }
  }

  lemma QueryAnswers(es: seq<Entry>, hs: seq<Handle>, zz: Word, key: Word, sub: Option<Path>, wantData: bool, count: nat)
    requires Unique(es)
    ensures Answers(es, hs, key, sub, wantData, count, ModelQuery(Model(StoreOf(es), hs, zz), key, sub, wantData, count))
  {
    var m := Model(StoreOf(es), hs, zz);
    var full := BuildKeyname(hs, key, sub);
    KeynameNames(hs, key, sub);
    if full.None? {
      hide BuildKeyname, Names, Unique, StoreOf, Delivers;
    } else {
      hide BuildKeyname, Names, Unique, StoreOf, Delivers, ModelQuery;
      FoundAnswers(es, m, key, sub, wantData, count, full.value);
      QueryStatus(m, key, sub, wantData, count);
    }
  }

  lemma QueryStatus(m: Model, key: Word, sub: Option<Path>, wantData: bool, count: nat)
    ensures ModelQuery(m, key, sub, wantData, count).status == 1 <==> BuildKeyname(m.handles, key, sub).None?
  {
    hide BuildKeyname;
  }

  /** One call on the array is the same call on the store. */
  lemma CallRefines(s: State, c: Call)
    requires Unique(s.entries)
    ensures Unique(After(s, c).entries) && ModelOf(After(s, c)) == ModelAfter(ModelOf(s), c)
  {
    hide Unique, StoreOf, Insert, FindHandle, Join;
    match c
    case Create(key, sub) =>
      var full := BuildKeyname(s.handles, key, sub);
      if full.Some? {
        FindIsLookup(s.entries, full.value);
        InsertIsUpdate(s.entries, Entry(DIR, full.value, NEW_KEY_DATA));
      }
    case SetValue(key, sub, kind, data) =>
      var full := BuildKeyname(s.handles, key, sub);
      if full.Some? {
        InsertIsUpdate(s.entries, Entry(kind, full.value, data));
      }
    case _ =>
  }

  function AfterAll(s: State, run: seq<Call>): State
    decreases |run|
  {
    if run == [] then s else AfterAll(After(s, run[0]), run[1..])
  }

  function ModelAfterAll(m: Model, run: seq<Call>): Model
    decreases |run|
  {
    if run == [] then m else ModelAfterAll(ModelAfter(m, run[0]), run[1..])
  }

  /** Over every run of calls the flat array behaves as a map from full path to type and bytes, with unique names. */
  lemma {:induction false} RunRefines(s: State, run: seq<Call>)
    requires Unique(s.entries)
    ensures Unique(AfterAll(s, run).entries)
    ensures ModelOf(AfterAll(s, run)) == ModelAfterAll(ModelOf(s), run)
    decreases |run|
  {
    if run != [] {
      CallRefines(s, run[0]);
      hide Unique, ModelOf, After, ModelAfter;
      RunRefines(After(s, run[0]), run[1..]);
    }
  }

  /**
   * A query through any handle returns what was last set under the same full path, and other paths keep their values.
   */
  lemma QueryAfterSet(s: State, key: Word, sub: Option<Path>, kind: Word, data: seq<Byte>, key': Word, sub': Option<Path>)
    requires Unique(s.entries) && BuildKeyname(s.handles, key, sub).Some?
    ensures var m := ModelOf(After(s, SetValue(key, sub, kind, data)));
            if BuildKeyname(s.handles, key', sub') == BuildKeyname(s.handles, key, sub) then
              ModelQuery(m, key', sub', true, |data|) == Answer(0, kind, data, |data|)
            else
              forall wantData, count ::
                ModelQuery(m, key', sub', wantData, count) == ModelQuery(ModelOf(s), key', sub', wantData, count)
  {
    CallRefines(s, SetValue(key, sub, kind, data));
    hide StoreOf, Insert, FindHandle, Join, Unique;
  }

  /** Some call of the run sets a value under the path. */
  predicate SetsPath(m: Model, run: seq<Call>, path: Path)
    decreases |run|
  {
    run != [] &&
    ((run[0].SetValue? && BuildKeyname(m.handles, run[0].key, run[0].sub) == Some(path))
     || SetsPath(ModelAfter(m, run[0]), run[1..], path))
  }

  lemma {:induction false} ValueLasts(m: Model, run: seq<Call>, path: Path)
    requires path in m.store && !SetsPath(m, run, path)
    ensures path in ModelAfterAll(m, run).store && ModelAfterAll(m, run).store[path] == m.store[path]
    decreases |run|
  {
    if run != [] {
      assert path in ModelAfter(m, run[0]).store && ModelAfter(m, run[0]).store[path] == m.store[path] by {
        hide FindHandle, Join, NextHandle;
      }
      hide ModelAfter, BuildKeyname;
      ValueLasts(ModelAfter(m, run[0]), run[1..], path);
    }
  }

  /** The answer to a query for a value of this type and these bytes. */
  function AnswerFor(kind: Word, data: seq<Byte>, wantData: bool, count: nat): Answer {
    Answer(if count < |data| then ERROR_MORE_DATA else 0, kind,
           if wantData then data[..Min(|data|, count)] else [], |data|)
  }

  /**
   * Whatever calls come after a set, as long as none sets a value under its path, a query through any handle that then
   * denotes the path gets what was set.
   */
  lemma QueryLongAfterSet(s: State, key: Word, sub: Option<Path>, kind: Word, data: seq<Byte>, run: seq<Call>,
                          key': Word, sub': Option<Path>, wantData: bool, count: nat)
    requires Unique(s.entries) && BuildKeyname(s.handles, key, sub).Some?
    requires var path := BuildKeyname(s.handles, key, sub).value;
             var afterSet := After(s, SetValue(key, sub, kind, data));
             && !SetsPath(ModelOf(afterSet), run, path)
             && BuildKeyname(AfterAll(afterSet, run).handles, key', sub') == Some(path)
    ensures var last := AfterAll(After(s, SetValue(key, sub, kind, data)), run);
            ModelQuery(ModelOf(last), key', sub', wantData, count) == AnswerFor(kind, data, wantData, count)
  {
    var path := BuildKeyname(s.handles, key, sub).value;
    var afterSet := After(s, SetValue(key, sub, kind, data));
    CallRefines(s, SetValue(key, sub, kind, data));
    assert ModelOf(afterSet).store[path] == (kind, data);
    hide StoreOf, Insert, FindHandle, Join, Unique, ModelAfter, After, NextHandle;
    RunRefines(afterSet, run);
    ValueLasts(ModelOf(afterSet), run, path);
  }

  /** Opening A and then B below it is opening A\B: the same full path for every name below. */
  lemma OpenTwiceIsOpenJoined(s: State, key: Word, a: Path, b: Path, sub: Option<Path>)
    requires FindHandle(s.handles, key) >= 0
    ensures var s1 := After(s, Open(key, Some(a)));
            var s2 := After(s1, Open(NextHandle(s.zz), Some(b)));
            var t := After(s, Open(key, Some(Join(a, b))));
            && BuildKeyname(s1.handles, s1.zz, Some(b)) == BuildKeyname(s.handles, key, Some(Join(a, b)))
            && BuildKeyname(s2.handles, s2.zz, sub) == BuildKeyname(t.handles, t.zz, sub)
  {
    var i := FindHandle(s.handles, key);
    var name := s.handles[i].name;
    JoinAssociative(name, a, b);
    hide Join;
  }

  lemma JoinAssociative(a: Path, b: Path, c: Path)
    ensures Join(Join(a, b), c) == Join(a, Join(b, c))
  {
  }

  // ----- handle numbers -----

  /** All words but the two predefined keys, numbered in order. */
  const HANDLE_COUNT := WORD - 2

  predicate Ordinary(w: Word) {
    w != HKEY_CURRENT_USER && w != HKEY_LOCAL_MACHINE
  }

  function Rank(w: Word): nat
    requires Ordinary(w)
  {
    if w < HKEY_CURRENT_USER then w else w - 2
  }

  /** The k-th handle number ever generated. */
  function NthHandle(k: nat): (w: Word)
    ensures Ordinary(w) && Rank(w) == (FIRST_HANDLE + k) % HANDLE_COUNT
  {
    if k == 0 then FIRST_HANDLE
    else
      var w := NthHandle(k - 1);
      NextRank(w, FIRST_HANDLE + k - 1);
      NextHandle(w)
  }

  lemma NextRank(w: Word, n: nat)
    requires Ordinary(w) && Rank(w) == n % HANDLE_COUNT
    ensures Ordinary(NextHandle(w)) && Rank(NextHandle(w)) == (n + 1) % HANDLE_COUNT
  {
    NextRemainder(n);
  }

  lemma NextRemainder(n: nat)
    ensures (n + 1) % HANDLE_COUNT == if n % HANDLE_COUNT == HANDLE_COUNT - 1 then 0 else n % HANDLE_COUNT + 1
  {
    var q, r := n / HANDLE_COUNT, n % HANDLE_COUNT;
    assert n + 1 == q * HANDLE_COUNT + (r + 1);
    if r + 1 == HANDLE_COUNT {
      assert n + 1 == (q + 1) * HANDLE_COUNT;
    }
  }

  lemma SameRemainder(a: nat, b: nat)
    ensures a % HANDLE_COUNT == b % HANDLE_COUNT <==> (a - b) % HANDLE_COUNT == 0
  {
    var d, r := a / HANDLE_COUNT - b / HANDLE_COUNT, a % HANDLE_COUNT - b % HANDLE_COUNT;
    assert a - b == d * HANDLE_COUNT + r;
    if r >= 0 {
      assert (a - b) / HANDLE_COUNT == d;
    } else {
      assert a - b == (d - 1) * HANDLE_COUNT + (r + HANDLE_COUNT);
      assert (a - b) / HANDLE_COUNT == d - 1;
    }
  }

  /**
   * No generated handle is a predefined key, and two are equal exactly when a multiple of 2^32 - 2 calls lies
   * between them.
   */
  lemma HandlesRepeatIff(i: nat, j: nat)
    ensures Ordinary(NthHandle(i)) && Ordinary(NthHandle(j))
    ensures NthHandle(i) == NthHandle(j) <==> (i - j) % HANDLE_COUNT == 0
  {
    SameRemainder(FIRST_HANDLE + i, FIRST_HANDLE + j);
    assert FIRST_HANDLE + i - (FIRST_HANDLE + j) == i - j;
    assert Rank(NthHandle(i)) == Rank(NthHandle(j)) <==> NthHandle(i) == NthHandle(j);
  }

  /**
   * An open handle goes on denoting the same key over an Open, unless the new handle takes its number for another key.
   */
  lemma OpenKeepsOthersIff(s: State, key: Word, sub: Option<Path>, other: Word)
    requires FindHandle(s.handles, other) >= 0 && BuildKeyname(s.handles, key, sub).Some?
    ensures var s' := After(s, Open(key, sub));
            var i, j := FindHandle(s.handles, other), FindHandle(s'.handles, other);
            && j >= 0
            && (s'.handles[j].name == s.handles[i].name <==>
                  other != NextHandle(s.zz) || Some(s.handles[i].name) == BuildKeyname(s.handles, key, sub))
  {
    var s' := After(s, Open(key, sub));
    assert s'.handles[..|s.handles|] == s.handles;
    hide NextHandle, Join;
  }

  // ----- the code -----

  /** A fresh registry holds the two root keys and nothing else. */
  const ROOTS: seq<Entry> := [Entry(DIR, HKLM, []), Entry(DIR, HKCU, [])]
  const ROOT_HANDLES: seq<Handle> := [Handle(HKEY_LOCAL_MACHINE, HKLM), Handle(HKEY_CURRENT_USER, HKCU)]

  class WindowsRegistry {
    var regs: array<Entry>
    var regSize: nat
    var handles: seq<Handle>
    var zz: Word
    var file: seq<Byte>

    ghost function Entries(): seq<Entry>
      reads this, regs
      requires regSize <= regs.Length
    {
      regs[..regSize]
    }

    /** Names are unique, and the file on disk reads back as the array in memory. */
    ghost predicate Valid()
      reads this, regs
    {
      regSize <= regs.Length && Unique(Entries()) && Storable(Entries()) && Parse(file) == Some(Entries())
    }

    ghost function Now(): State
      reads this, regs
      requires regSize <= regs.Length
    {
      State(Entries(), handles, zz)
    }

    /** init_registry: read the file, or create it when there is none. */
    constructor (disk: Option<seq<Byte>>)
      requires disk.Some? ==> Parse(disk.value).Some? && Unique(Parse(disk.value).value) && Storable(Parse(disk.value).value)
      ensures Valid() && fresh(regs)
      ensures Now() == State(if disk.Some? then Parse(disk.value).value else ROOTS, ROOT_HANDLES, FIRST_HANDLE)
    {
      handles := ROOT_HANDLES;
      zz := FIRST_HANDLE;
      file := if disk.Some? then disk.value else [];
      regs := new Entry[0](_ => Entry(0, [], []));
      regSize := 0;
      new;
      hide Parse, Print;
      if disk.Some? {
        regs, regSize := OpenRegistry(file);
      } else {
        regs := new Entry[] [ROOTS[0], ROOTS[1]];
        regSize := 2;
        assert regs[..regSize] == ROOTS;
        RootsStorable();
        Save();
      }
    }

    /** save_registry: the file is written from its start and keeps whatever it had behind. */
    method Save()
      requires regSize <= regs.Length && Storable(Entries())
      modifies this`file
      ensures Parse(file) == Some(Entries())
    {
      var data := SaveRegistry(regs, regSize);
      SavedOverReadsBack(file, Entries());
      file := if |data| <= |file| then data + file[|data|..] else data;
    }

    /** find_value_by_name. */
    method FindValueByName(name: Path) returns (i: int)
      requires regSize <= regs.Length
      ensures i == FindValue(Entries(), name)
    {
      i := 0;
      while i < regSize
        invariant 0 <= i <= regSize
        invariant forall j :: 0 <= j < i ==> regs[j].name != name
      {
        if regs[i].name == name {
          return;
        }
        i := i + 1;
      }
      i := -1;
    }

    /** find_handle and build_keyname. */
    method Keyname(key: Word, sub: Option<Path>) returns (full: Option<Path>)
      ensures full == BuildKeyname(handles, key, sub)
    {
      var t := |handles| - 1;
      while t >= 0 && handles[t].key != key
        invariant -1 <= t < |handles|
        invariant forall j :: t < j < |handles| ==> handles[j].key != key
      {
        t := t - 1;
      }
      if t == -1 {
        return None;
      }
      full := Some(Join(handles[t].name, if sub.None? then DEFAULT else sub.value));
    }

    /** insert_reg_value, behind build_keyname. */
    method InsertRegValue(full: Path, kind: Word, value: seq<Byte>)
      requires Valid() && Storable(Insert(Entries(), Entry(kind, full, value)))
      modifies this`regs, this`regSize, this`file, regs
      ensures Valid() && fresh({regs} - {old(regs)})
      ensures Entries() == Insert(old(Entries()), Entry(kind, full, value))
    {
      InsertIsUpdate(Entries(), Entry(kind, full, value));
      hide Unique, Storable, Parse;
      ghost var es := Entries();
      var v := FindValueByName(full);
      if v == -1 {
        var grown := new Entry[regSize + 1](i requires 0 <= i && regSize <= regs.Length reads this, regs =>
                                              if i < regSize then regs[i] else Entry(0, [], []));
        v := regSize;
        regs := grown;
        regSize := regSize + 1;
        regs[v] := Entry(kind, full, value);
        assert Entries() == es + [Entry(kind, full, value)];
      } else {
        regs[v] := Entry(kind, full, value);
        assert Entries() == es[v := Entry(kind, full, value)];
      }
      Save();
    }

    method NewHandle(name: Path) returns (newkey: Word)
      modifies this`handles, this`zz
      ensures handles == old(handles) + [Handle(NextHandle(old(zz)), name)]
      ensures newkey == zz == NextHandle(old(zz))
    {
      zz := (zz + 1) % WORD;
      while zz == HKEY_LOCAL_MACHINE || zz == HKEY_CURRENT_USER
        invariant handles == old(handles)
        invariant NextHandle(old(zz)) ==
                  if zz == HKEY_CURRENT_USER then zz + 2 else if zz == HKEY_LOCAL_MACHINE then zz + 1 else zz
        decreases HKEY_LOCAL_MACHINE + 1 - zz
      {
        zz := (zz + 1) % WORD;
      }
      handles := handles + [Handle(zz, name)];
      newkey := zz;
    }

    method RegOpenKeyExA(key: Word, sub: Option<Path>) returns (r: int, newkey: Word)
      requires Valid()
      modifies this`handles, this`zz
      ensures Valid() && Now() == After(old(Now()), Open(key, sub))
      ensures r == if BuildKeyname(old(handles), key, sub).None? then -1 else 0
      ensures r == 0 ==> newkey == zz
    {
      hide Unique, Storable, Parse, NextHandle;
      newkey := 0;
      var full := Keyname(key, sub);
      if full.None? {
        return -1, 0;
      }
      newkey := NewHandle(full.value);
      r := 0;
    }

    method RegCloseKey(key: Word) returns (r: int)
      requires Valid()
      modifies this`handles
      ensures Valid() && Now() == After(old(Now()), Close(key))
      ensures r == if handles == old(handles) then 0 else 1
    {
      hide Unique, Storable, Parse;
      if key == HKEY_LOCAL_MACHINE || key == HKEY_CURRENT_USER {
        return 0;
      }
      var t := |handles| - 1;
      while t >= 0 && handles[t].key != key
        invariant -1 <= t < |handles|
        invariant forall j :: t < j < |handles| ==> handles[j].key != key
      {
        t := t - 1;
      }
      if t == -1 {
        return 0;
      }
      handles := handles[..t] + handles[t + 1..];
      r := 1;
    }

    /** The answer is the one the store gives: the exact prefix that fits, and the true length. */
    method RegQueryValueExA(key: Word, value: Option<Path>, wantData: bool, count: nat) returns (a: Answer)
      requires Valid()
      ensures a == ModelQuery(ModelOf(Now()), key, value, wantData, count)
      ensures Answers(Entries(), handles, key, value, wantData, count, a)
    {
      QueryAnswers(Entries(), handles, zz, key, value, wantData, count);
      hide Storable, Parse, StoreOf, Answers;
      var c := Keyname(key, value);
      if c.None? {
        return Answer(1, 0, [], count);
      }
      var t := FindValueByName(c.value);
      FindIsLookup(Entries(), c.value);
      if t == -1 {
        return Answer(2, 0, [], count);
      }
      var len := |regs[t].value|;
      var data := [];
      if wantData {
        data := regs[t].value[..if len < count then len else count];
      }
      if count < len {
        a := Answer(ERROR_MORE_DATA, regs[t].kind, data, len);
      } else {
        a := Answer(0, regs[t].kind, data, len);
      }
    }

    method RegCreateKeyExA(key: Word, name: Option<Path>) returns (r: int, newkey: Word, created: bool)
      requires Valid()
      requires var full := BuildKeyname(handles, key, name);
               full.Some? ==> Storable(Insert(Entries(), Entry(DIR, full.value, NEW_KEY_DATA)))
      modifies this`regs, this`regSize, this`file, this`handles, this`zz, regs
      ensures Valid() && Now() == After(old(Now()), Create(key, name))
      ensures r == if BuildKeyname(old(handles), key, name).None? then 1 else 0
      ensures created <==> |Entries()| > |old(Entries())|
      ensures r == 0 ==> newkey == zz
    {
      hide Unique, Storable, Parse, NextHandle;
      r, newkey, created := 0, 0, false;
      var full := Keyname(key, name);
      if full.None? {
        return 1, 0, false;
      }
      var v := FindValueByName(full.value);
      if v == -1 {
        InsertRegValue(full.value, DIR, NEW_KEY_DATA);
        created := true;
      }
      newkey := NewHandle(full.value);
    }

    method RegSetValueExA(key: Word, name: Option<Path>, kind: Word, data: seq<Byte>) returns (r: int)
      requires Valid()
      requires var full := BuildKeyname(handles, key, name);
               full.Some? ==> Storable(Insert(Entries(), Entry(kind, full.value, data)))
      modifies this`regs, this`regSize, this`file, regs
      ensures Valid() && Now() == After(old(Now()), SetValue(key, name, kind, data))
      ensures r == if BuildKeyname(old(handles), key, name).None? then 1 else 0
    {
      hide Unique, Storable, Parse;
      var c := Keyname(key, name);
      if c.None? {
        return 1;
      }
      InsertRegValue(c.value, kind, data);
      r := 0;
    }
  }

  lemma RootsStorable()
    ensures Storable(ROOTS) && Unique(ROOTS)
  {
    assert ROOTS[0].name[2] != ROOTS[1].name[2];
  }
}
