// CreateMutexA and ReleaseMutex of loader/win32.c are a semaphore of one unit.
// ReleaseMutex does not ask who holds the mutex; it excludes exactly as long as
// threads release only what they hold.
module MutexObject {
  import opened Semaphore

  /** The semaphore, and the threads whose wait was answered WAIT_OBJECT_0 and that have not yet released. */
  datatype Mutex = Mutex(s: State, holders: multiset<Tid>)

  /** CreateMutexA: a unit is free unless the creating thread owns the mutex from the start. */
  function CreateMutex(threads: set<Tid>, initialOwner: bool, creator: Tid): Mutex {
    Mutex(Create(if initialOwner then 0 else 1, threads), if initialOwner then multiset{creator} else multiset{})
  }

  /** ReleaseMutex adds exactly one unit, whoever calls it. */
  predicate Able(m: Mutex, a: Action) {
    Enabled(m.s, a) && (a.BeginRelease? ==> a.inc == 1)
  }

  /** A release by a thread that does not hold the mutex. */
  predicate Stray(m: Mutex, a: Action) {
    a.BeginRelease? && a.t !in m.holders
  }

  function Step(m: Mutex, a: Action): Mutex
    requires Able(m, a)
  {
    var s' := Apply(m.s, a);
    var holders' := if s'.pc[a.t] == WaitExit(WaitObject0) then m.holders + multiset{a.t}
                    else if a.BeginRelease? then m.holders - multiset{a.t}
                    else m.holders;
    Mutex(s', holders')
  }

  predicate Runs(m: Mutex, run: seq<Action>)
    decreases |run|
  {
    run == [] || (Able(m, run[0]) && Runs(Step(m, run[0]), run[1..]))
  }

  function Reached(m: Mutex, run: seq<Action>): Mutex
    requires Runs(m, run)
    decreases |run|
  {
    if run == [] then m else Reached(Step(m, run[0]), run[1..])
  }

  /** How many of the run's releases are stray. */
  function Strays(m: Mutex, run: seq<Action>): nat
    requires Runs(m, run)
    decreases |run|
  {
    if run == [] then 0
    else (if Stray(m, run[0]) then 1 else 0) + Strays(Step(m, run[0]), run[1..])
  }

  predicate Disciplined(m: Mutex, run: seq<Action>) {
    Runs(m, run) && Strays(m, run) == 0
  }

  // ----- conservation of units -----

  predicate GivingBack(pc: Pc) {
    pc.ReleaseEntry? || pc.ReleaseBroadcast? || pc.ReleaseAdd?
  }

  /** Threads that have let go of the mutex but have not yet put the unit back. */
  function Returning(pc: map<Tid, Pc>): set<Tid> {
    set t | t in pc && GivingBack(pc[t])
  }

  ghost predicate Sound(m: Mutex) {
    && Inv(m.s) && m.s.owner <= m.s.pc.Keys
    && (forall t :: t in m.s.pc && GivingBack(m.s.pc[t]) ==> m.s.pc[t].inc == 1)
  }

  /** The units there are: in the count, with a holder, or on their way back. */
  function Units(m: Mutex): int {
    Balance(m.s) + |m.holders| + |Returning(m.s.pc)|
  }

  /** What is still to do until every unit is with a holder. */
  function Work(m: Mutex): int {
    Balance(m.s) + 2 * |Returning(m.s.pc)|
  }

  lemma CreatedSound(threads: set<Tid>, initialOwner: bool, creator: Tid)
    ensures Sound(CreateMutex(threads, initialOwner, creator))
    ensures Units(CreateMutex(threads, initialOwner, creator)) == 1
  {
    InvInitially(if initialOwner then 0 else 1, threads);
    assert Returning(CreateMutex(threads, initialOwner, creator).s.pc) == {};
  }

  lemma ReturningSame(pc: map<Tid, Pc>, pc': map<Tid, Pc>)
    requires pc.Keys == pc'.Keys
    requires forall t :: t in pc ==> GivingBack(pc[t]) == GivingBack(pc'[t])
    ensures Returning(pc') == Returning(pc)
  {
  }

  /** Every step of every thread keeps the number of units, except that a stray release adds one. */
  lemma UnitsKept(m: Mutex, a: Action)
    requires Sound(m) && Able(m, a)
    ensures Sound(Step(m, a)) && Units(Step(m, a)) == Units(m) + if Stray(m, a) then 1 else 0
  {
    hide Inv;
    InvStep(m.s, a);
    match a
    case BeginRelease(t, _) => UnitLetGo(m, t);
    case Run(t) =>
      if m.s.pc[t].ReleaseAdd? {
        UnitPutBack(m, t);
      } else if m.s.pc[t].ReleaseBroadcast? {
        UnitOnItsWay(m, t);
      } else {
        UnitTaken(m, t);
      }
    case _ => UnitUntouched(m, a);
  }

  lemma UnitLetGo(m: Mutex, t: Tid)
    requires Sound(m) && Able(m, BeginRelease(t, 1)) && Inv(Apply(m.s, BeginRelease(t, 1)))
    ensures var m' := Step(m, BeginRelease(t, 1));
            Sound(m') && Units(m') == Units(m) + if t in m.holders then 0 else 1
  {
    hide Inv;
    assert Returning(m.s.pc[t := ReleaseEntry(1)]) == Returning(m.s.pc) + {t};
  }

  lemma UnitPutBack(m: Mutex, t: Tid)
    requires Sound(m) && t in m.s.pc && m.s.pc[t].ReleaseAdd? && Inv(Apply(m.s, Run(t)))
    ensures Sound(Step(m, Run(t))) && Units(Step(m, Run(t))) == Units(m)
    ensures Work(Step(m, Run(t))) == Work(m) - 1
  {
    hide Inv;
    assert t in Returning(m.s.pc);
    assert Returning(m.s.pc[t := ReleaseExit]) == Returning(m.s.pc) - {t};
  }

  lemma UnitOnItsWay(m: Mutex, t: Tid)
    requires Sound(m) && t in m.s.pc && m.s.pc[t].ReleaseBroadcast? && Inv(Apply(m.s, Run(t)))
    ensures Sound(Step(m, Run(t))) && Units(Step(m, Run(t))) == Units(m)
    ensures Work(Step(m, Run(t))) == Work(m)
  {
    hide Inv;
    ReturningSame(m.s.pc, Apply(m.s, Run(t)).pc);
  }

  lemma UnitTaken(m: Mutex, t: Tid)
    requires Sound(m) && t in m.s.pc && (m.s.pc[t].WaitCheck? || m.s.pc[t].WaitRecheck?)
    requires Inv(Apply(m.s, Run(t)))
    ensures Sound(Step(m, Run(t))) && Units(Step(m, Run(t))) == Units(m)
    ensures Work(Step(m, Run(t))) == Work(m) - if Step(m, Run(t)).s.acquired > m.s.acquired then 1 else 0
  {
    hide Inv;
    ReturningSame(m.s.pc, Apply(m.s, Run(t)).pc);
  }

  lemma UnitUntouched(m: Mutex, a: Action)
    requires Sound(m) && Able(m, a) && !a.BeginRelease? && !a.Run? && Inv(Apply(m.s, a))
    ensures Sound(Step(m, a)) && Units(Step(m, a)) == Units(m) && Work(Step(m, a)) == Work(m)
  {
    hide Inv;
    ReturningSame(m.s.pc, Apply(m.s, a).pc);
  }

  lemma {:induction false} UnitsAlways(m: Mutex, run: seq<Action>)
    requires Sound(m) && Runs(m, run)
    ensures Sound(Reached(m, run)) && Units(Reached(m, run)) == Units(m) + Strays(m, run)
    decreases |run|
  {
    if run != [] {
      UnitsKept(m, run[0]);
      hide Sound, Units, Step, Able, Stray;
      UnitsAlways(Step(m, run[0]), run[1..]);
    }
  }

  /** Over all interleavings there is at most one holder more than there were stray releases. */
  lemma HoldersBounded(threads: set<Tid>, initialOwner: bool, creator: Tid, run: seq<Action>)
    requires Runs(CreateMutex(threads, initialOwner, creator), run)
    ensures var m := CreateMutex(threads, initialOwner, creator);
            |Reached(m, run).holders| <= 1 + Strays(m, run)
  {
    CreatedSound(threads, initialOwner, creator);
    UnitsAlways(CreateMutex(threads, initialOwner, creator), run);
  }

  /**
   * Mutual exclusion over all disciplined interleavings: never two holders, and a held mutex has no unit left to take.
   */
  lemma AtMostOneHolder(threads: set<Tid>, initialOwner: bool, creator: Tid, run: seq<Action>)
    requires Disciplined(CreateMutex(threads, initialOwner, creator), run)
    ensures var m := Reached(CreateMutex(threads, initialOwner, creator), run);
            && |m.holders| <= 1
            && 0 <= m.s.count <= 1
            && (m.holders != multiset{} ==> m.s.count == 0)
  {
    CreatedSound(threads, initialOwner, creator);
    UnitsAlways(CreateMutex(threads, initialOwner, creator), run);
    var m := Reached(CreateMutex(threads, initialOwner, creator), run);
    WrapSmall(Balance(m.s));
  }

  // ----- mutual exclusion as the callers see it -----

  /** The step ends a wait with the answer WAIT_OBJECT_0. */
  predicate Answered(m: Mutex, a: Action)
    requires Able(m, a)
  {
    Apply(m.s, a).pc[a.t] == WaitExit(WaitObject0)
  }

  predicate AnsweredAt(m: Mutex, run: seq<Action>, i: nat)
    requires Runs(m, run) && i < |run|
    decreases |run|
  {
    if i == 0 then Answered(m, run[0]) else AnsweredAt(Step(m, run[0]), run[1..], i - 1)
  }

  /** With one unit, an answered wait leaves its thread the only holder. */
  lemma AnsweredHoldsAlone(m: Mutex, a: Action)
    requires Sound(m) && Units(m) == 1 && Able(m, a) && Answered(m, a)
    ensures m.holders == multiset{} && Step(m, a).holders == multiset{a.t}
  {
    UnitsKept(m, a);
    assert Step(m, a).holders == m.holders + multiset{a.t};
  }

  /** A holder stays the only one, and no wait is answered, until it releases. */
  lemma HolderStays(m: Mutex, t: Tid, a: Action)
    requires Sound(m) && Units(m) == 1 && m.holders == multiset{t}
    requires Able(m, a) && !Stray(m, a) && a != BeginRelease(t, 1)
    ensures !Answered(m, a) && Step(m, a).holders == multiset{t}
  {
    if Answered(m, a) {
      AnsweredHoldsAlone(m, a);
    }
  }

  lemma {:induction false} HeldUntilReleased(m: Mutex, t: Tid, run: seq<Action>, j: nat)
    requires Sound(m) && Units(m) == 1 && m.holders == multiset{t}
    requires Disciplined(m, run) && j < |run| && AnsweredAt(m, run, j)
    ensures exists k :: 0 <= k < j && run[k] == BeginRelease(t, 1)
    decreases |run|
  {
    hide Sound, Units, Able, Answered, Step;
    if run[0] == BeginRelease(t, 1) {
      ReleaseIsNoAnswer(m, t);
    } else {
      HolderStays(m, t, run[0]);
      UnitsKept(m, run[0]);
      HeldUntilReleased(Step(m, run[0]), t, run[1..], j - 1);
      var k :| 0 <= k < j - 1 && run[1..][k] == BeginRelease(t, 1);
      assert run[k + 1] == BeginRelease(t, 1);
    }
  }

  lemma ReleaseIsNoAnswer(m: Mutex, t: Tid)
    requires Able(m, BeginRelease(t, 1))
    ensures !Answered(m, BeginRelease(t, 1))
  {
  }

  lemma {:induction false} ReleaseBetween(m: Mutex, run: seq<Action>, i: nat, j: nat)
    requires Sound(m) && Units(m) == 1 && Disciplined(m, run)
    requires i < j < |run| && AnsweredAt(m, run, i) && AnsweredAt(m, run, j)
    ensures exists k :: i < k < j && run[k] == BeginRelease(run[i].t, 1)
    decreases i
  {
    hide Sound, Units, Able, Answered, Step;
    UnitsKept(m, run[0]);
    if i == 0 {
      AnsweredHoldsAlone(m, run[0]);
      HeldUntilReleased(Step(m, run[0]), run[0].t, run[1..], j - 1);
      var k :| 0 <= k < j - 1 && run[1..][k] == BeginRelease(run[0].t, 1);
      assert run[k + 1] == BeginRelease(run[0].t, 1);
    } else {
      ReleaseBetween(Step(m, run[0]), run[1..], i - 1, j - 1);
      var k :| i - 1 < k < j - 1 && run[1..][k] == BeginRelease(run[1..][i - 1].t, 1);
      assert run[k + 1] == BeginRelease(run[i].t, 1);
    }
  }

  /**
   * Mutual exclusion as the callers see it: in every disciplined interleaving, between any two waits answered
   * WAIT_OBJECT_0 the thread that got the first answer has released the mutex.
   */
  lemma ReleasedBetweenSuccesses(threads: set<Tid>, initialOwner: bool, creator: Tid, run: seq<Action>, i: nat, j: nat)
    requires Disciplined(CreateMutex(threads, initialOwner, creator), run)
    requires i < j < |run|
    requires AnsweredAt(CreateMutex(threads, initialOwner, creator), run, i)
    requires AnsweredAt(CreateMutex(threads, initialOwner, creator), run, j)
    ensures exists k :: i < k < j && run[k] == BeginRelease(run[i].t, 1)
  {
    CreatedSound(threads, initialOwner, creator);
    hide Sound, Units, Disciplined, AnsweredAt, CreateMutex;
    ReleaseBetween(CreateMutex(threads, initialOwner, creator), run, i, j);
  }

  // ----- every unit can be taken -----

  /** t is somewhere from which it can come back and poll without falling asleep. */
  predicate Usable(pc: Pc) {
    && !pc.Asleep? && !pc.Woken? && !pc.WaitRecheck?
    && (pc.WaitEntry? || pc.WaitCheck? ==> pc.d.Poll?)
  }

  /** How far the thread inside the pthread mutex is from done with a piece of work, or from letting others in. */
  function Closeness(s: State, u: Tid): nat
    requires u in s.pc
  {
    match s.pc[u]
    case ReleaseBroadcast(_) => 3
    case ReleaseAdd(_) => 2
    case WaitCheck(_) => if s.count != 0 then 3 else 31
    case WaitRecheck(_, _) => 31
    case _ => 30
  }

  /** How far the next piece of work is from done. */
  ghost function Distance(m: Mutex, t: Tid): nat
    requires Sound(m) && t in m.s.pc
  {
    if m.s.owner != {} then
      var u :| u in m.s.owner;
      Closeness(m.s, u)
    else if Returning(m.s.pc) != {} then 10
    else if m.s.pc[t].WaitEntry? then 15
    else 20
  }

  lemma DistanceOfOwner(m: Mutex, t: Tid, u: Tid)
    requires Sound(m) && t in m.s.pc && u in m.s.owner
    ensures u in m.s.pc && Distance(m, t) == Closeness(m.s, u)
  {
  }

  /** A disciplined step that brings the units closer to holders. */
  ghost predicate Helps(m: Mutex, t: Tid, a: Action)
    requires Sound(m) && t in m.s.pc
  {
    && Able(m, a) && !Stray(m, a)
    && var m' := Step(m, a);
    && Sound(m') && t in m'.s.pc && Usable(m'.s.pc[t]) && Units(m') == Units(m)
    && 0 <= Work(m') <= Work(m)
    && (Work(m') == Work(m) ==> Distance(m', t) < Distance(m, t))
  }

  lemma UnlockHelps(m: Mutex, t: Tid, u: Tid)
    requires Sound(m) && t in m.s.pc && Usable(m.s.pc[t]) && Work(m) >= 0
    requires u in m.s.owner && u in m.s.pc && (m.s.pc[u].WaitExit? || m.s.pc[u].ReleaseExit?)
    ensures Helps(m, t, Unlock(u))
  {
    DistanceOfOwner(m, t, u);
    InvStep(m.s, Unlock(u));
    UnitUntouched(m, Unlock(u));
    assert m.s.owner == {u};
    assert Step(m, Unlock(u)).s.owner == {};
    hide Inv, Sound, Units, Work;
  }

  lemma BroadcastHelps(m: Mutex, t: Tid, u: Tid)
    requires Sound(m) && t in m.s.pc && Usable(m.s.pc[t]) && Work(m) >= 0
    requires u in m.s.owner && u in m.s.pc && m.s.pc[u].ReleaseBroadcast?
    ensures Helps(m, t, Run(u))
  {
    DistanceOfOwner(m, t, u);
    InvStep(m.s, Run(u));
    UnitOnItsWay(m, u);
    DistanceOfOwner(Step(m, Run(u)), t, u);
    hide Inv, Sound, Units, Work;
  }

  lemma AddHelps(m: Mutex, t: Tid, u: Tid)
    requires Sound(m) && t in m.s.pc && Usable(m.s.pc[t]) && Work(m) >= 0
    requires u in m.s.owner && u in m.s.pc && m.s.pc[u].ReleaseAdd?
    ensures Helps(m, t, Run(u))
  {
    InvStep(m.s, Run(u));
    UnitPutBack(m, u);
    WorkPositive(m, u);
    hide Inv, Sound, Units, Work;
  }

  lemma WorkPositive(m: Mutex, u: Tid)
    requires Sound(m) && u in m.s.pc && GivingBack(m.s.pc[u])
    ensures Work(m) > 0
  {
    assert u in Returning(m.s.pc);
  }

  /** What a thread does at the check of its wait: take a unit, go to sleep, or give up. */
  lemma CheckOutcome(s: State, u: Tid)
    requires Inv(s) && u in s.owner && u in s.pc && (s.pc[u].WaitCheck? || s.pc[u].WaitRecheck?)
    ensures var s' := Apply(s, Run(u));
            && s'.pc.Keys == s.pc.Keys && (forall v :: v in s.pc && v != u ==> s'.pc[v] == s.pc[v])
            && (s'.acquired > s.acquired ==> s'.owner == {u} && s'.pc[u] == WaitExit(WaitObject0))
            && (s'.acquired == s.acquired ==>
                  && !(s.pc[u].WaitCheck? && s.count != 0)
                  && ((s'.owner == {} && s'.pc[u].Asleep?) || (s'.owner == {u} && s'.pc[u].WaitExit?)))
            && s'.acquired >= s.acquired
            && (Usable(s.pc[u]) ==> !s'.pc[u].Asleep?)
  {
    assert s.owner == {u};
  }

  lemma CheckHelps(m: Mutex, t: Tid, u: Tid)
    requires Sound(m) && t in m.s.pc && Usable(m.s.pc[t]) && 0 <= Balance(m.s) <= INT_MAX
    requires u in m.s.owner && u in m.s.pc && (m.s.pc[u].WaitCheck? || m.s.pc[u].WaitRecheck?)
    ensures Helps(m, t, Run(u))
  {
    DistanceOfOwner(m, t, u);
    CheckOutcome(m.s, u);
    InvStep(m.s, Run(u));
    UnitTaken(m, u);
    var m' := Step(m, Run(u));
    assert Balance(m'.s) >= 0;
    assert Closeness(m.s, u) == 31 || m'.s.acquired > m.s.acquired;
    if m'.s.owner != {} {
      DistanceOfOwner(m', t, u);
    }
    hide Inv, Sound, Units, Balance, Apply;
  }

  lemma OwnerHelps(m: Mutex, t: Tid, u: Tid) returns (a: Action)
    requires Sound(m) && t in m.s.pc && Usable(m.s.pc[t]) && u in m.s.owner && 0 <= Balance(m.s) <= INT_MAX
    ensures Helps(m, t, a)
  {
    DistanceOfOwner(m, t, u);
    assert HoldsLock(m.s.pc[u]);
    hide Inv, Helps;
    match m.s.pc[u] {
      case ReleaseBroadcast(_) =>
        a := Run(u);
        BroadcastHelps(m, t, u);
      case ReleaseAdd(_) =>
        a := Run(u);
        AddHelps(m, t, u);
      case WaitExit(_) =>
        a := Unlock(u);
        UnlockHelps(m, t, u);
      case ReleaseExit =>
        a := Unlock(u);
        UnlockHelps(m, t, u);
      case _ =>
        a := Run(u);
        CheckHelps(m, t, u);
    }
  }

  /** With nobody inside, a returning thread can come in. */
  lemma ReturnHelps(m: Mutex, t: Tid, r: Tid)
    requires Sound(m) && t in m.s.pc && Usable(m.s.pc[t]) && Work(m) >= 0
    requires m.s.owner == {} && r in Returning(m.s.pc)
    ensures Helps(m, t, Lock(r))
  {
    assert !HoldsLock(m.s.pc[r]);
    InvStep(m.s, Lock(r));
    UnitUntouched(m, Lock(r));
    var m' := Step(m, Lock(r));
    assert m'.s.owner == {r};
    DistanceOfOwner(m', t, r);
    hide Inv, Sound, Units, Work;
  }

  /** With nobody inside and nobody returning, t can poll for a unit that is left. */
  lemma PollHelps(m: Mutex, t: Tid) returns (a: Action)
    requires Sound(m) && t in m.s.pc && Usable(m.s.pc[t]) && 0 < Balance(m.s) <= INT_MAX
    requires m.s.owner == {} && Returning(m.s.pc) == {}
    ensures Helps(m, t, a)
  {
    WrapSmall(Balance(m.s));
    assert t !in Returning(m.s.pc) && !HoldsLock(m.s.pc[t]);
    assert m.s.pc[t].Idle? || m.s.pc[t].WaitEntry?;
    a := if m.s.pc[t].Idle? then BeginWait(t, Poll) else Lock(t);
    InvStep(m.s, a);
    UnitUntouched(m, a);
    var m' := Step(m, a);
    if a.Lock? {
      assert m'.s.owner == {t};
      DistanceOfOwner(m', t, t);
    } else {
      ReturningSame(m.s.pc, m'.s.pc);
    }
    hide Inv, Sound, Units, Work;
  }

  /** From every sound state a disciplined run gives every unit to a holder. */
  lemma {:induction false} EveryUnitCanBeTaken(m: Mutex, t: Tid) returns (run: seq<Action>)
    requires Sound(m) && t in m.s.pc && Usable(m.s.pc[t]) && Units(m) <= INT_MAX
    ensures Disciplined(m, run) && |Reached(m, run).holders| == Units(m)
    decreases Work(m), Distance(m, t)
  {
    if Work(m) == 0 {
      run := [];
    } else {
      var a: Action;
      if u :| u in m.s.owner {
        a := OwnerHelps(m, t, u);
      } else if r :| r in Returning(m.s.pc) {
        a := Lock(r);
        ReturnHelps(m, t, r);
      } else {
        a := PollHelps(m, t);
      }
      var rest := EveryUnitCanBeTaken(Step(m, a), t);
      run := [a] + rest;
      assert run[1..] == rest;
    }
  }

  lemma {:induction false} RunsJoin(m: Mutex, run: seq<Action>, more: seq<Action>)
    requires Runs(m, run) && Runs(Reached(m, run), more)
    ensures Runs(m, run + more) && Reached(m, run + more) == Reached(Reached(m, run), more)
    ensures Strays(m, run + more) == Strays(m, run) + Strays(Reached(m, run), more)
    decreases |run|
  {
    hide Step, Able, Stray;
    if run == [] {
      assert run + more == more;
    } else {
      assert (run + more)[1..] == run[1..] + more;
      RunsJoin(Step(m, run[0]), run[1..], more);
    }
  }

  /** There is no way on from m, with every thread disciplined from here, to two holders. */
  ghost predicate Exclusive(m: Mutex) {
    forall more :: Disciplined(m, more) ==> |Reached(m, more).holders| <= 1
  }

  lemma ExclusiveIffOneUnit(m: Mutex, t: Tid)
    requires Sound(m) && t in m.s.pc && Usable(m.s.pc[t]) && Units(m) <= INT_MAX
    ensures Exclusive(m) <==> Units(m) <= 1
  {
    if Units(m) <= 1 {
      forall more | Disciplined(m, more) ensures |Reached(m, more).holders| <= 1 {
        UnitsAlways(m, more);
      }
    } else {
      var run := EveryUnitCanBeTaken(m, t);
      assert Disciplined(m, run) && |Reached(m, run).holders| > 1;
    }
  }

  /**
   * After any run, as long as a thread is idle, the mutex still excludes exactly when no release so far was stray:
   * one stray release is enough for a second holder, however disciplined the threads are from then on.
   */
  lemma ExclusionIff(threads: set<Tid>, initialOwner: bool, creator: Tid, run: seq<Action>, t: Tid)
    requires Runs(CreateMutex(threads, initialOwner, creator), run)
    requires Strays(CreateMutex(threads, initialOwner, creator), run) < INT_MAX
    requires var m := Reached(CreateMutex(threads, initialOwner, creator), run); t in m.s.pc && m.s.pc[t].Idle?
    ensures Exclusive(Reached(CreateMutex(threads, initialOwner, creator), run))
            <==> Strays(CreateMutex(threads, initialOwner, creator), run) == 0
  {
    var start := CreateMutex(threads, initialOwner, creator);
    CreatedSound(threads, initialOwner, creator);
    UnitsAlways(start, run);
    hide CreateMutex, Exclusive, Sound, Units;
    ExclusiveIffOneUnit(Reached(start, run), t);
  }

  /**
   * In every state a disciplined run reaches, a release by an idle thread keeps exclusion exactly when that thread is a
   * holder.
   */
  lemma ReleaseKeepsExclusionIff(threads: set<Tid>, initialOwner: bool, creator: Tid, run: seq<Action>, t: Tid)
    requires Disciplined(CreateMutex(threads, initialOwner, creator), run)
    requires var m := Reached(CreateMutex(threads, initialOwner, creator), run); t in m.s.pc && m.s.pc[t].Idle?
    ensures var m := Reached(CreateMutex(threads, initialOwner, creator), run);
            && Able(m, BeginRelease(t, 1))
            && (Exclusive(Step(m, BeginRelease(t, 1))) <==> t in m.holders)
  {
    var start := CreateMutex(threads, initialOwner, creator);
    CreatedSound(threads, initialOwner, creator);
    UnitsAlways(start, run);
    var m := Reached(start, run);
    UnitsKept(m, BeginRelease(t, 1));
    assert Usable(Step(m, BeginRelease(t, 1)).s.pc[t]);
    hide CreateMutex, Exclusive, Sound, Units;
    ExclusiveIffOneUnit(Step(m, BeginRelease(t, 1)), t);
  }

  function EnterRelease(t: Tid): seq<Action> {
    [BeginRelease(t, 1), Lock(t), Run(t)]
  }

  function LeaveRelease(t: Tid): seq<Action> {
    [Run(t), Unlock(t)]
  }

  function Take(t: Tid): seq<Action> {
    [BeginWait(t, Poll), Lock(t), Run(t)]
  }

  /** A thread that releases without holding, and then polls. */
  function StrayRelease(t: Tid): seq<Action> {
    EnterRelease(t) + LeaveRelease(t) + Take(t)
  }

  lemma StepFirst(m: Mutex, a: Action, rest: seq<Action>)
    requires Able(m, a) && Runs(Step(m, a), rest)
    ensures Runs(m, [a] + rest) && Reached(m, [a] + rest) == Reached(Step(m, a), rest)
  {
    hide Step, Able;
    assert ([a] + rest)[1..] == rest;
  }

  lemma ReleaseEnters(m: Mutex, t: Tid)
    requires m.s.owner == {} && m.s.count == 0 && t in m.s.pc && m.s.pc[t] == Idle && t !in m.holders
    ensures var run := EnterRelease(t);
            && Runs(m, run)
            && var r := Reached(m, run);
            r.s.owner == {t} && r.s.count == 0 && t in r.s.pc && r.s.pc[t] == ReleaseAdd(1) && r.holders == m.holders
  {
    var run := EnterRelease(t);
    var m1 := Step(m, run[0]);
    var m2 := Step(m1, run[1]);
    var m3 := Step(m2, run[2]);
    assert m3.s.owner == {t} && m3.s.count == 0 && m3.s.pc[t] == ReleaseAdd(1) && m3.holders == m.holders;
    hide Step, Able;
    StepFirst(m2, run[2], []);
    StepFirst(m1, run[1], run[2..]);
    StepFirst(m, run[0], run[1..]);
  }

  lemma ReleaseLeaves(m: Mutex, t: Tid)
    requires m.s.owner == {t} && m.s.count == 0 && t in m.s.pc && m.s.pc[t] == ReleaseAdd(1)
    ensures var run := LeaveRelease(t);
            && Runs(m, run)
            && var r := Reached(m, run);
            r.s.owner == {} && r.s.count == 1 && t in r.s.pc && r.s.pc[t] == Idle && r.holders == m.holders
  {
    var run := LeaveRelease(t);
    var m1 := Step(m, run[0]);
    var m2 := Step(m1, run[1]);
    assert m2.s.owner == {} && m2.s.count == 1 && m2.s.pc[t] == Idle && m2.holders == m.holders;
    hide Step, Able;
    StepFirst(m1, run[1], []);
    StepFirst(m, run[0], run[1..]);
  }

  lemma TakeAlone(m: Mutex, t: Tid)
    requires m.s.owner == {} && m.s.count == 1 && t in m.s.pc && m.s.pc[t] == Idle
    ensures var run := Take(t);
            && Runs(m, run)
            && var r := Reached(m, run);
            t in r.s.pc && r.s.pc[t] == WaitExit(WaitObject0) && r.holders == m.holders + multiset{t}
  {
    var run := Take(t);
    var m1 := Step(m, run[0]);
    var m2 := Step(m1, run[1]);
    var m3 := Step(m2, run[2]);
    assert m3.s.pc[t] == WaitExit(WaitObject0) && m3.holders == m.holders + multiset{t};
    hide Step, Able;
    StepFirst(m2, run[2], []);
    StepFirst(m1, run[1], run[2..]);
    StepFirst(m, run[0], run[1..]);
  }

  lemma HeldMeansEmpty(m: Mutex)
    requires Sound(m) && Units(m) == 1 && m.holders != multiset{}
    ensures |m.holders| == 1 && m.s.count == 0
  {
    WrapSmall(0);
  }

  /**
   * In any held mutex with nobody inside, an idle thread that does not hold it can make itself a holder beside the
   * owner.
   */
  lemma StrayReleaseAdmitsSecondHolder(m: Mutex, t: Tid)
    requires Sound(m) && Units(m) == 1 && m.holders != multiset{} && m.s.owner == {}
    requires t in m.s.pc && m.s.pc[t].Idle? && t !in m.holders
    ensures Runs(m, StrayRelease(t)) && Reached(m, StrayRelease(t)).s.pc.Keys >= {t}
    ensures Reached(m, StrayRelease(t)).s.pc[t] == WaitExit(WaitObject0)
    ensures Reached(m, StrayRelease(t)).holders == m.holders + multiset{t}
    ensures |Reached(m, StrayRelease(t)).holders| == 2
  {
    hide Sound, Units, Runs, Reached, Strays, EnterRelease, LeaveRelease, Take;
    HeldMeansEmpty(m);
    ReleaseEnters(m, t);
    ReleaseLeaves(Reached(m, EnterRelease(t)), t);
    RunsJoin(m, EnterRelease(t), LeaveRelease(t));
    TakeAlone(Reached(m, EnterRelease(t) + LeaveRelease(t)), t);
    RunsJoin(m, EnterRelease(t) + LeaveRelease(t), Take(t));
  }
}
