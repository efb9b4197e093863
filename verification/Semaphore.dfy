// The emulated Win32 semaphore of loader/win32.c: an int count guarded by a
// pthread mutex, with a condition variable for the waiters. Threads interleave
// between any two of the steps below; each step is atomic because it runs with
// the mutex held or is itself a pthread primitive.
module Semaphore {

  type Tid = nat

  /** The timeout argument of WaitForSingleObject: 0, INFINITE (-1), or milliseconds. */
  datatype Duration = Poll | Infinite | Timed

  /** What pthread_cond_wait or pthread_cond_timedwait returned. */
  datatype WakeCause = Signalled | TimedOut | WaitError

  datatype WaitResult = WaitObject0 | WaitTimeout | WaitFailed

  /** Where a thread stands inside a wait or a release. */
  datatype Pc =
    | Idle
    | WaitEntry(d: Duration)
    | WaitCheck(d: Duration)
    | Asleep(d: Duration)
    | Woken(d: Duration, cause: WakeCause)
    | WaitRecheck(d: Duration, cause: WakeCause)
    | WaitExit(result: WaitResult)
    | ReleaseEntry(inc: int)
    | ReleaseBroadcast(inc: int)
    | ReleaseAdd(inc: int)
    | ReleaseExit

  /** The object, its threads, and a tally of units put in and taken out. */
  datatype State = State(
    count: int,
    owner: set<Tid>,
    pc: map<Tid, Pc>,
    initial: nat,
    released: int,
    acquired: nat)

  datatype Action =
    | BeginWait(t: Tid, d: Duration)
    | BeginRelease(t: Tid, inc: int)
    | Lock(t: Tid)
    | Run(t: Tid)
    | Wake(t: Tid, cause: WakeCause)
    | Unlock(t: Tid)

  const INT_MODULUS := 0x1_0000_0000
  const INT_MAX := 0x7FFF_FFFF

  /** Two's complement wrap-around of the 32-bit count. */
  function Wrap(x: int): (w: int)
    ensures -INT_MAX - 1 <= w <= INT_MAX
  {
    (x + INT_MAX + 1) % INT_MODULUS - INT_MAX - 1
  }

  function Create(initial: nat, threads: set<Tid>): State {
    State(Wrap(initial), {}, map t | t in threads :: Idle, initial, 0, 0)
  }

  predicate HoldsLock(pc: Pc) {
    pc.WaitCheck? || pc.WaitRecheck? || pc.WaitExit?
    || pc.ReleaseBroadcast? || pc.ReleaseAdd? || pc.ReleaseExit?
  }

  // ----- the steps -----

  predicate Enabled(s: State, a: Action) {
    a.t in s.pc &&
    var pc := s.pc[a.t];
    match a
    case BeginWait(_, _) => pc.Idle?
    case BeginRelease(_, inc) => pc.Idle? && inc > 0
    case Lock(_) => s.owner == {} && (pc.WaitEntry? || pc.Woken? || pc.ReleaseEntry?)
    case Run(_) => pc.WaitCheck? || pc.WaitRecheck? || pc.ReleaseBroadcast? || pc.ReleaseAdd?
    case Wake(_, cause) => pc.Asleep? && (pc.d.Infinite? ==> cause.Signalled?)
    case Unlock(_) => pc.WaitExit? || pc.ReleaseExit?
  }

  function Apply(s: State, a: Action): State
    requires Enabled(s, a)
  {
    match a
    case BeginWait(t, d) => s.(pc := s.pc[t := WaitEntry(d)])
    case BeginRelease(t, inc) => s.(pc := s.pc[t := ReleaseEntry(inc)])
    case Lock(t) => s.(owner := {t}, pc := s.pc[t := Locked(s.pc[t])])
    case Wake(t, cause) => s.(pc := s.pc[t := Woken(s.pc[t].d, cause)])
    case Unlock(t) => s.(owner := s.owner - {t}, pc := s.pc[t := Idle])
    case Run(t) =>
      match s.pc[t]
      case WaitCheck(d) =>
        if s.count != 0 then Take(s, t)
        else if d.Poll? then s.(pc := s.pc[t := WaitExit(WaitFailed)])
        else Sleep(s, t, d)
      case WaitRecheck(d, cause) =>
        if cause.TimedOut? then s.(pc := s.pc[t := WaitExit(WaitTimeout)])
        else if cause.WaitError? then s.(pc := s.pc[t := WaitExit(WaitFailed)])
        else if s.count == 0 then Sleep(s, t, d)
        else Take(s, t)
      case ReleaseBroadcast(inc) =>
        var woken := if s.count == 0 then WakeAll(s.pc) else s.pc;
        s.(pc := woken[t := ReleaseAdd(inc)])
      case ReleaseAdd(inc) =>
        s.(count := Wrap(s.count + inc), released := s.released + inc, pc := s.pc[t := ReleaseExit])
      case _ => s
  }

  function Locked(pc: Pc): Pc
    requires pc.WaitEntry? || pc.Woken? || pc.ReleaseEntry?
  {
    match pc
    case WaitEntry(d) => WaitCheck(d)
    case Woken(d, cause) => WaitRecheck(d, cause)
    case ReleaseEntry(inc) => ReleaseBroadcast(inc)
  }

  function Take(s: State, t: Tid): State {
    s.(count := Wrap(s.count - 1), acquired := s.acquired + 1, pc := s.pc[t := WaitExit(WaitObject0)])
  }

  /** pthread_cond_wait gives up the mutex and goes to sleep in one step. */
  function Sleep(s: State, t: Tid, d: Duration): State {
    s.(owner := s.owner - {t}, pc := s.pc[t := Asleep(d)])
  }

  function WakeAll(pc: map<Tid, Pc>): map<Tid, Pc> {
    map t | t in pc :: if pc[t].Asleep? then Woken(pc[t].d, Signalled) else pc[t]
  }

  // ----- runs -----

  predicate Possible(s: State, run: seq<Action>)
    decreases |run|
  {
    run == [] || (Enabled(s, run[0]) && Possible(Apply(s, run[0]), run[1..]))
  }

  function After(s: State, run: seq<Action>): State
    requires Possible(s, run)
    decreases |run|
  {
    if run == [] then s else After(Apply(s, run[0]), run[1..])
  }

  /** Units that ought to be in the semaphore. */
  function Balance(s: State): int {
    s.initial + s.released - s.acquired
  }

  ghost predicate NobodyAsleep(s: State) {
    forall t :: t in s.pc ==> !s.pc[t].Asleep?
  }

  ghost predicate SomebodyAdding(s: State) {
    exists t :: t in s.pc && s.pc[t].ReleaseAdd?
  }

  ghost predicate Inv(s: State) {
    && Balance(s) >= 0
    && s.count == Wrap(Balance(s))
    && (forall t :: t in s.pc ==> (HoldsLock(s.pc[t]) <==> t in s.owner))
    && (forall t, u :: t in s.owner && u in s.owner ==> t == u)
    && (forall t :: t in s.pc && (s.pc[t].ReleaseEntry? || s.pc[t].ReleaseBroadcast? || s.pc[t].ReleaseAdd?) ==>
          s.pc[t].inc > 0)
    && (s.count != 0 || SomebodyAdding(s) ==> NobodyAsleep(s))
  }

  lemma WrapAdd(x: int, y: int)
    ensures Wrap(Wrap(x) + y) == Wrap(x + y)
  {
    var a := x + INT_MAX + 1;
    var q := a / INT_MODULUS;
    assert a == q * INT_MODULUS + a % INT_MODULUS;
    assert Wrap(x) + y + INT_MAX + 1 == a + y - q * INT_MODULUS;
    ModShift(a + y, -q);
  }

  lemma ModShift(a: int, k: int)
    ensures (a + k * INT_MODULUS) % INT_MODULUS == a % INT_MODULUS
  {
    var r, q := a % INT_MODULUS, a / INT_MODULUS;
    var b := a + k * INT_MODULUS;
    assert b == (q + k) * INT_MODULUS + r;
    assert b / INT_MODULUS == q + k;
  }

  lemma WrapSmall(x: int)
    requires -INT_MAX - 1 <= x <= INT_MAX
    ensures Wrap(x) == x
  {
  }

  lemma InvInitially(initial: nat, threads: set<Tid>)
    ensures Inv(Create(initial, threads))
  {
  }

  /** Every step of every thread keeps the invariant. */
  lemma InvStep(s: State, a: Action)
    requires Inv(s) && Enabled(s, a)
    ensures Inv(Apply(s, a))
  {
    if a.Run? {
      var pc := s.pc[a.t];
      if pc.ReleaseBroadcast? {
        BroadcastKeeps(s, a.t);
      } else if pc.ReleaseAdd? {
        AddKeeps(s, a.t);
      } else {
        WaitKeeps(s, a.t);
      }
    } else {
      QuietStepKeeps(s, a);
    }
  }

  lemma BroadcastKeeps(s: State, t: Tid)
    requires Inv(s) && t in s.pc && s.pc[t].ReleaseBroadcast?
    ensures Inv(Apply(s, Run(t)))
  {
    var s' := Apply(s, Run(t));
    assert NobodyAsleep(s');
  }

  lemma AddKeeps(s: State, t: Tid)
    requires Inv(s) && t in s.pc && s.pc[t].ReleaseAdd?
    ensures Inv(Apply(s, Run(t)))
  {
    WrapAdd(Balance(s), s.pc[t].inc);
    assert SomebodyAdding(s);
    var s' := Apply(s, Run(t));
    assert NobodyAsleep(s');
  }

  lemma QuietStepKeeps(s: State, a: Action)
    requires Inv(s) && Enabled(s, a) && !a.Run?
    ensures Inv(Apply(s, a))
  {
    KeepsQuiet(s, Apply(s, a), a.t);
  }

  /** A step that neither puts a thread to sleep nor starts adding leaves the wake-up condition alone. */
  lemma KeepsQuiet(s: State, s': State, t: Tid)
    requires t in s.pc && t in s'.pc && s'.pc == s.pc[t := s'.pc[t]]
    requires s'.count == s.count
    requires !s'.pc[t].Asleep? && !s'.pc[t].ReleaseAdd?
    requires s.count != 0 || SomebodyAdding(s) ==> NobodyAsleep(s)
    ensures s'.count != 0 || SomebodyAdding(s') ==> NobodyAsleep(s')
  {
    if SomebodyAdding(s') {
      var u :| u in s'.pc && s'.pc[u].ReleaseAdd?;
      assert u in s.pc && s.pc[u].ReleaseAdd?;
    }
  }

  lemma WaitKeeps(s: State, t: Tid)
    requires Inv(s) && t in s.pc && (s.pc[t].WaitCheck? || s.pc[t].WaitRecheck?)
    ensures Inv(Apply(s, Run(t)))
  {
    var s' := Apply(s, Run(t));
    assert !SomebodyAdding(s);
    if s' == Take(s, t) {
      TakeKeeps(s, t);
    } else if s'.pc[t].Asleep? {
      assert !SomebodyAdding(s');
    } else {
      KeepsQuiet(s, s', t);
    }
  }

  lemma TakeKeeps(s: State, t: Tid)
    requires Inv(s) && t in s.owner && t in s.pc && s.count != 0
    ensures Inv(Take(s, t))
  {
    WrapAdd(Balance(s), -1);
    WrapSmall(0);
    var s' := Take(s, t);
    assert Balance(s') == Balance(s) - 1;
    assert NobodyAsleep(s');
  }

  lemma {:induction false} InvAlways(s: State, run: seq<Action>)
    requires Inv(s) && Possible(s, run)
    ensures Inv(After(s, run))
    decreases |run|
  {
    if run != [] {
      InvStep(s, run[0]);
      InvAlways(Apply(s, run[0]), run[1..]);
    }
  }

  lemma {:induction false} InitialKept(s: State, run: seq<Action>)
    requires Possible(s, run)
    ensures After(s, run).initial == s.initial && After(s, run).pc.Keys == s.pc.Keys
    decreases |run|
  {
    if run != [] {
      InitialKept(Apply(s, run[0]), run[1..]);
    }
  }

  /**
   * Conservation over all interleavings: the count is initial + released - acquired, modulo 2^32,
   * that balance never goes below zero, and the count itself is the balance while it fits an int.
   */
  lemma CountIsConserved(initial: nat, threads: set<Tid>, run: seq<Action>)
    requires Possible(Create(initial, threads), run)
    ensures var s := After(Create(initial, threads), run);
            var balance := initial + s.released - s.acquired;
            && balance >= 0
            && s.count == Wrap(balance)
            && (balance <= INT_MAX ==> s.count == balance >= 0)
  {
    InvInitially(initial, threads);
    InvAlways(Create(initial, threads), run);
    InitialKept(Create(initial, threads), run);
    var s := After(Create(initial, threads), run);
    if Balance(s) <= INT_MAX {
      WrapSmall(Balance(s));
    }
  }

  /** No wake-up is ever lost: while the count is not zero no thread sleeps on the condition variable. */
  lemma NoLostWakeup(initial: nat, threads: set<Tid>, run: seq<Action>, t: Tid)
    requires Possible(Create(initial, threads), run) && t in threads
    ensures var s := After(Create(initial, threads), run);
            t in s.pc && (s.pc[t].Asleep? ==> s.count == 0)
  {
    InvInitially(initial, threads);
    InvAlways(Create(initial, threads), run);
    InitialKept(Create(initial, threads), run);
  }

  /** At most one thread is ever inside the pthread mutex. */
  lemma LockIsExclusive(initial: nat, threads: set<Tid>, run: seq<Action>, t: Tid, u: Tid)
    requires Possible(Create(initial, threads), run) && t in threads && u in threads
    ensures var s := After(Create(initial, threads), run);
            t in s.pc && u in s.pc && (HoldsLock(s.pc[t]) && HoldsLock(s.pc[u]) ==> t == u)
  {
    InvInitially(initial, threads);
    InvAlways(Create(initial, threads), run);
    InitialKept(Create(initial, threads), run);
  }

  // ----- what a wait answers -----

  /**
   * A wait is answered WAIT_OBJECT_0 by exactly the steps that take a unit: the step raises the tally of taken units
   * by one and lowers the balance by one, and every other step takes none and removes none.
   */
  lemma SuccessIffUnitTaken(s: State, a: Action)
    requires Inv(s) && Enabled(s, a)
    ensures var s' := Apply(s, a);
            && s'.pc.Keys == s.pc.Keys
            && (s'.pc[a.t] == WaitExit(WaitObject0) <==> s'.acquired == s.acquired + 1)
            && (s'.pc[a.t] == WaitExit(WaitObject0) <==> Balance(s') < Balance(s))
            && (s'.pc[a.t] == WaitExit(WaitObject0) ==> Balance(s') == Balance(s) - 1 && s.count != 0)
            && (s'.pc[a.t] != WaitExit(WaitObject0) ==> s'.acquired == s.acquired)
            && (forall u :: u in s.pc && u != a.t ==> s'.pc[u].WaitExit? == s.pc[u].WaitExit?)
  {
    if a.Run? && s.pc[a.t].ReleaseAdd? {
      AddKeeps(s, a.t);
    }
  }

  /**
   * The three answers, told apart by how the waiting thread came to its test: WAIT_TIMEOUT exactly when the time ran
   * out, WAIT_FAILED exactly for a poll that finds no unit and for an error of pthread_cond_timedwait, and success
   * exactly when there is a unit and neither happened. Only success changes the count; without an answer the thread
   * is asleep, for as long as it was willing to wait, and has let go of the mutex.
   */
  lemma WaitAnswers(s: State, t: Tid)
    requires Inv(s) && t in s.pc && (s.pc[t].WaitCheck? || s.pc[t].WaitRecheck?)
    ensures Enabled(s, Run(t))
    ensures var s', pc := Apply(s, Run(t)), s.pc[t];
            && var quiet := pc.WaitCheck? || pc.cause.Signalled?;
            && (s'.pc[t] == WaitExit(WaitTimeout) <==> pc.WaitRecheck? && pc.cause.TimedOut?)
            && (s'.pc[t] == WaitExit(WaitFailed) <==>
                  (pc.WaitRecheck? && pc.cause.WaitError?) || (pc.WaitCheck? && pc.d.Poll? && s.count == 0))
            && (s'.pc[t] == WaitExit(WaitObject0) <==> quiet && s.count != 0)
            && (s'.pc[t].WaitExit? || s'.pc[t] == Asleep(pc.d))
            && (s'.pc[t] != WaitExit(WaitObject0) ==> s'.count == s.count && s'.acquired == s.acquired)
            && s'.owner == (if s'.pc[t].Asleep? then {} else {t})
  {
    assert s.owner == {t};
  }

  /** A thread can go on in every state, unless it wants the pthread mutex and another thread is inside. */
  lemma CanStepIff(s: State, t: Tid)
    requires Inv(s) && t in s.pc
    ensures (exists a: Action :: a.t == t && Enabled(s, a))
            <==> !(s.owner != {} && (s.pc[t].WaitEntry? || s.pc[t].Woken? || s.pc[t].ReleaseEntry?))
  {
    var a := match s.pc[t]
      case Idle => BeginWait(t, Poll)
      case Asleep(_) => Wake(t, Signalled)
      case WaitExit(_) => Unlock(t)
      case ReleaseExit => Unlock(t)
      case WaitEntry(_) => Lock(t)
      case Woken(_, _) => Lock(t)
      case ReleaseEntry(_) => Lock(t)
      case _ => Run(t);
    assert a.t == t;
  }

  // ----- what a call was asked for, and what it does -----

  /** A thread's last call: a wait, with every way it was woken since, or a release. */
  datatype Call = NoCall | Wait(d: Duration, causes: seq<WakeCause>) | Release(inc: int)

  /** A broadcast signals every thread asleep on the condition variable, but only at count 0. */
  predicate Broadcasts(s: State, a: Action) {
    a.Run? && a.t in s.pc && s.pc[a.t].ReleaseBroadcast? && s.count == 0
  }

  /** The record of thread t, from the actions alone, but for which threads a broadcast finds asleep. */
  function Noted(s: State, a: Action, t: Tid, c: Call): Call {
    if a.BeginWait? && a.t == t then Wait(a.d, [])
    else if a.BeginRelease? && a.t == t then Release(a.inc)
    else if a.Wake? && a.t == t && c.Wait? then Wait(c.d, c.causes + [a.cause])
    else if Broadcasts(s, a) && t in s.pc && s.pc[t].Asleep? && c.Wait? then Wait(c.d, c.causes + [Signalled])
    else c
  }

  function Record(s: State, run: seq<Action>, t: Tid, c: Call): Call
    requires Possible(s, run)
    decreases |run|
  {
    if run == [] then c else Record(Apply(s, run[0]), run[1..], t, Noted(s, run[0], t, c))
  }

  /** The last way the wait was woken. */
  predicate LastWoken(c: Call, cause: WakeCause) {
    c.Wait? && c.causes != [] && c.causes[|c.causes| - 1] == cause
  }

  predicate Fits(pc: Pc, c: Call) {
    match pc
    case WaitEntry(d) => c == Wait(d, [])
    case WaitCheck(d) => c == Wait(d, [])
    case Asleep(d) => c.Wait? && c.d == d && d != Poll
    case Woken(d, cause) => LastWoken(c, cause) && c.d == d && d != Poll && (d.Infinite? ==> cause.Signalled?)
    case WaitRecheck(d, cause) => LastWoken(c, cause) && c.d == d && d != Poll && (d.Infinite? ==> cause.Signalled?)
    case ReleaseEntry(inc) => c == Release(inc)
    case ReleaseBroadcast(inc) => c == Release(inc)
    case ReleaseAdd(inc) => c == Release(inc)
    case _ => true
  }

  lemma FitsStep(s: State, a: Action, t: Tid, c: Call)
    requires Enabled(s, a) && t in s.pc && Fits(s.pc[t], c)
    ensures t in Apply(s, a).pc && Fits(Apply(s, a).pc[t], Noted(s, a, t, c))
  {
    hide Wrap;
  }

  lemma {:induction false} FitsAlways(s: State, run: seq<Action>, t: Tid, c: Call)
    requires Possible(s, run) && t in s.pc && Fits(s.pc[t], c)
    ensures t in After(s, run).pc && Fits(After(s, run).pc[t], Record(s, run, t, c))
    decreases |run|
  {
    if run != [] {
      FitsStep(s, run[0], t, c);
      hide Fits, Noted, Apply, Enabled;
      FitsAlways(Apply(s, run[0]), run[1..], t, Noted(s, run[0], t, c));
    }
  }

  /** What a thread asked for in its last call of the run, and how it was woken since. */
  function LastCall(initial: nat, threads: set<Tid>, run: seq<Action>, t: Tid): Call
    requires Possible(Create(initial, threads), run)
  {
    Record(Create(initial, threads), run, t, NoCall)
  }

  /**
   * Over all interleavings, when a thread in a wait comes to its test: it is told WAIT_TIMEOUT exactly when its call was
   * a timed one that ran out, WAIT_FAILED exactly when its call was a poll and the count is 0 or its wait went wrong,
   * WAIT_OBJECT_0 exactly when there is a unit and neither time nor wait failed; else it sleeps on.
   */
  lemma AnswerFitsCall(initial: nat, threads: set<Tid>, run: seq<Action>, t: Tid)
    requires Possible(Create(initial, threads), run) && t in threads
    requires var s := After(Create(initial, threads), run); t in s.pc && (s.pc[t].WaitCheck? || s.pc[t].WaitRecheck?)
    ensures var s := After(Create(initial, threads), run);
            var c := LastCall(initial, threads, run, t);
            && c.Wait? && Enabled(s, Run(t))
            && var s' := Apply(s, Run(t));
            && (s'.pc[t] == WaitExit(WaitTimeout) <==> LastWoken(c, TimedOut))
            && (LastWoken(c, TimedOut) ==> c.d.Timed?)
            && (s'.pc[t] == WaitExit(WaitFailed) <==>
                  LastWoken(c, WaitError) || (c.d.Poll? && c.causes == [] && s.count == 0))
            && (s'.pc[t] == WaitExit(WaitObject0) <==>
                  !LastWoken(c, TimedOut) && !LastWoken(c, WaitError) && s.count != 0)
            && (s'.pc[t].WaitExit? || s'.pc[t] == Asleep(c.d))
  {
    var start := Create(initial, threads);
    InvInitially(initial, threads);
    InvAlways(start, run);
    FitsAlways(start, run, t, NoCall);
    hide Create, Inv, Record, After, Possible;
    WaitAnswers(After(start, run), t);
    hide Apply;
  }

  /** And when a thread in a release comes to its addition, the balance grows by what its call asked for. */
  lemma ReleaseAddsIncrement(initial: nat, threads: set<Tid>, run: seq<Action>, t: Tid)
    requires Possible(Create(initial, threads), run) && t in threads
    requires var s := After(Create(initial, threads), run); t in s.pc && s.pc[t].ReleaseAdd?
    ensures var s := After(Create(initial, threads), run);
            var c := LastCall(initial, threads, run, t);
            && c.Release? && Enabled(s, Run(t))
            && Balance(Apply(s, Run(t))) == Balance(s) + c.inc
  {
    FitsAlways(Create(initial, threads), run, t, NoCall);
    hide Create, Record, After, Possible;
  }
}
