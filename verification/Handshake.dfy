// The handshake of dshowserver/timeout_sem.c and dshowserver/server.c in its
// semaphore mode: two crossed POSIX semaphores guard one shared buffer. The host
// is any client that opens with is_host, and then only waits, writes and posts.
module Handshake {
  import opened MachineWords

  const DS_TIMEOUT := -1

  const VD_END: Word := 1
  const VD_DECODE: Word := 2
  const VD_SEEK: Word := 3
  const VD_RELOAD_BIH: Word := 4

  /** -1 as the 32-bit word both sides read. */
  const MINUS_ONE: Word := 0xFFFF_FFFF

  /**
   * The shared memory: the command and the return code in one word (a union), the time, the frame buffer, and the
   * picture behind it.
   */
  datatype Buffer = Buffer(word: Word, pts: nat, data: nat, picture: nat)

  /** What the codec and the picture header answer while one command is served. */
  datatype Codec = Codec(ret: Word, pts: nat, picture: nat, sizeMatches: bool)

  /** Cleans is the host between its first wait running out and its removal of the names. */
  datatype Host = Closed | Waits | Cleans | Writes

  datatype Server =
    | Unstarted
    | Refused          // sem_open failed: the names were gone
    | Opened           // it has the semaphores and has removed the names, but not yet posted
    | Polling
    | Serving
    | Answered
    | Posted
    | Exited(holding: bool)

  datatype State = State(
    linked: bool,           // the two semaphore names exist
    sem1: nat,              // host to server
    sem2: nat,              // server to host
    host: Host,
    initialized: bool,      // the host has come back from its first wait
    server: Server,
    ret: Word,              // the server's local variable
    buffer: Buffer,
    sent: seq<Buffer>,      // what the host had written, each time it posted
    codecs: seq<Codec>,     // what the codec answered, for each command it was given
    replies: seq<Buffer>,   // what the server had written, each time it posted after a command
    received: seq<Buffer>)  // what the host found, each time it came back with a reply

  datatype Action =
    | HostOpen
    | HostWaitOk
    | HostTimeout
    | HostClean
    | HostWrite(b: Buffer)
    | HostPost
    | ServerOpen
    | ServerHello
    | ServerWaitOk
    | ServerWaitTimeout
    | ServerGivesUp         // the parent died, or the wait failed
    | ServerServe(c: Codec)
    | ServerPost
    | ServerLoop

  function Initial(b: Buffer): State {
    State(false, 0, 0, Closed, false, Unstarted, 0, b, [], [], [], [])
  }

  predicate Enabled(s: State, a: Action) {
    match a
    case HostOpen => s.host.Closed?
    case HostWaitOk => s.host.Waits? && s.sem2 > 0
    case HostTimeout => s.host.Waits? && s.sem2 == 0
    case HostClean => s.host.Cleans?
    case HostWrite(_) => s.host.Writes?
    case HostPost => s.host.Writes?
    case ServerOpen => s.server.Unstarted?
    case ServerHello => s.server.Opened?
    case ServerWaitOk => s.server.Polling? && s.sem1 > 0
    case ServerWaitTimeout => s.server.Polling? && s.sem1 == 0
    case ServerGivesUp => s.server.Polling?
    case ServerServe(_) => s.server.Serving?
    case ServerPost => s.server.Answered?
    case ServerLoop => s.server.Posted?
  }

  predicate Legal(cmd: Word) {
    cmd == VD_END || cmd == VD_DECODE || cmd == VD_SEEK || cmd == VD_RELOAD_BIH
  }

  /** The switch of the command loop, for every command but VD_END: the buffer and the local ret it leaves. */
  function Serve(b: Buffer, ret: Word, c: Codec): (Buffer, Word) {
    if b.word == VD_DECODE then (b.(word := c.ret, pts := c.pts, picture := c.picture), c.ret)
    else if b.word == VD_SEEK then (b.(word := 0), 0)
    else if b.word == VD_RELOAD_BIH then (b.(word := if c.sizeMatches then 0 else MINUS_ONE), ret)
    else (b, MINUS_ONE)
  }

  function Apply(s: State, a: Action): State
    requires Enabled(s, a)
  {
    match a
    case HostOpen => s.(linked := true, host := Waits)
    case HostWaitOk =>
      s.(sem2 := s.sem2 - 1, host := Writes, initialized := true,
         linked := s.linked && s.initialized,
         received := if s.replies == [] then [] else s.received + [s.buffer])
    case HostTimeout => if s.initialized then s else s.(host := Cleans)
    case HostClean => s.(host := Waits, initialized := true, linked := false)
    case HostWrite(b) => s.(buffer := b)
    case HostPost => s.(sem1 := s.sem1 + 1, host := Waits, sent := s.sent + [s.buffer])
    case ServerOpen =>
      if s.linked then s.(linked := false, server := Opened) else s.(server := Refused)
    case ServerHello => s.(sem2 := s.sem2 + 1, server := Polling)
    case ServerWaitOk => s.(sem1 := s.sem1 - 1, server := Serving)
    case ServerWaitTimeout => s
    case ServerGivesUp => s.(server := Exited(false))
    case ServerServe(c) =>
      if s.buffer.word == VD_END then s.(server := Exited(true))
      else
        var (b, ret) := Serve(s.buffer, s.ret, c);
        s.(buffer := b, ret := ret, server := Answered, codecs := s.codecs + [c])
    case ServerPost => s.(sem2 := s.sem2 + 1, server := Posted, replies := s.replies + [s.buffer])
    case ServerLoop => s.(server := if s.ret == MINUS_ONE then Exited(false) else Polling)
  }

  predicate Possible(s: State, run: seq<Action>)
    decreases |run|
  {
    run == [] || (Enabled(s, run[0]) && Possible(Apply(s, run[0]), run[1..]))
  }

  function After(s: State, run: seq<Action>): State
    requires Possible(s, run)
    decreases |run|
  {
    if run == [] then s else After(Apply(s, run[0]), run[1..])
  }

  // ----- the invariant -----

  /** The server has its semaphores. */
  predicate Connected(s: State) {
    !s.server.Unstarted? && !s.server.Refused?
  }

  /** And it has posted for the first time. */
  predicate Greeted(s: State) {
    Connected(s) && !s.server.Opened?
  }

  /** The server is between its wait and its post, or stopped there for good. */
  predicate ServerOwns(s: State) {
    s.server.Serving? || s.server.Answered? || (s.server.Exited? && s.server.holding)
  }

  /** One token circulates once the server has posted for the first time. */
  predicate OneToken(s: State) {
    s.sem1 + s.sem2 + (if s.host.Writes? then 1 else 0) + (if ServerOwns(s) then 1 else 0)
    == if Greeted(s) then 1 else 0
  }

  /**
   * The reply to a command, given what the codec answered. A decode carries the codec's return code, time and picture;
   * a seek answers 0 and a header reload 0 or -1 by its size; neither these nor an illegal command, which comes back
   * as it is, touch time or picture. The frame buffer is the host's.
   */
  predicate Answers(cmd: Buffer, reply: Buffer, c: Codec) {
    && cmd.word != 1
    && reply.data == cmd.data
    && (cmd.word == 2 ==> reply.word == c.ret && reply.pts == c.pts && reply.picture == c.picture)
    && (cmd.word != 2 ==> reply.pts == cmd.pts && reply.picture == cmd.picture)
    && (cmd.word == 3 ==> reply.word == 0)
    && (cmd.word == 4 ==> reply.word == if c.sizeMatches then 0 else 0xFFFF_FFFF)
    && (cmd.word == 0 || cmd.word > 4 ==> reply.word == cmd.word)
  }

  predicate RepliesMatch(sent: seq<Buffer>, codecs: seq<Codec>, replies: seq<Buffer>) {
    && |replies| <= |sent| && |replies| <= |codecs|
    && forall k :: 0 <= k < |replies| ==> Answers(sent[k], replies[k], codecs[k])
  }

  /** A command is under way: posted by the host and not yet answered. */
  predicate Outstanding(s: State) {
    s.sem1 == 1 || ServerOwns(s)
  }

  predicate Inv(s: State) {
    && OneToken(s)
    && |s.codecs| == |s.replies| + (if s.server.Answered? then 1 else 0)
    && RepliesMatch(s.sent, s.codecs, s.replies)
    && |s.sent| == |s.replies| + (if Outstanding(s) then 1 else 0)
    && (s.sem1 == 1 || s.server.Serving? ==> s.buffer == s.sent[|s.sent| - 1])
    && (s.server.Answered? ==> Answers(s.sent[|s.sent| - 1], s.buffer, s.codecs[|s.codecs| - 1]))
    && (s.server.Exited? && s.server.holding ==> s.sent[|s.sent| - 1].word == VD_END)
    && (s.sem2 == 1 && s.replies != [] ==> s.buffer == s.replies[|s.replies| - 1])
    && s.received == (if s.sem2 == 1 && s.replies != [] then s.replies[..|s.replies| - 1] else s.replies)
    && (s.server.Polling? || s.server.Serving? || s.server.Unstarted? || s.server.Opened? ==> s.ret != MINUS_ONE)
    && (!Connected(s) ==> (s.linked <==> !s.host.Closed? && !s.initialized))
    && (Connected(s) ==> !s.linked && !s.host.Closed?)
    && (!Greeted(s) ==> s.sent == [])
    && (s.host.Closed? || s.host.Cleans? ==> !s.initialized)
    && (!s.initialized ==> s.sent == [] && !s.host.Writes? && (Greeted(s) ==> s.sem2 == 1))
  }

  lemma ServeAnswers(b: Buffer, ret: Word, c: Codec)
    requires b.word != VD_END
    ensures Answers(b, Serve(b, ret, c).0, c)
  {
  }

  lemma InvInitially(b: Buffer)
    ensures Inv(Initial(b))
  {
  }

  lemma HostStepKeeps(s: State, a: Action)
    requires Inv(s) && Enabled(s, a) && (a.HostOpen? || a.HostWaitOk? || a.HostTimeout? || a.HostClean? || a.HostWrite? || a.HostPost?)
    ensures Inv(Apply(s, a))
  {
    hide Answers;
    if a.HostWaitOk? && s.replies != [] {
      assert s.replies == s.replies[..|s.replies| - 1] + [s.replies[|s.replies| - 1]];
    }
  }

  lemma ServerPostKeeps(s: State)
    requires Inv(s) && s.server.Answered?
    ensures Inv(Apply(s, ServerPost))
  {
    hide Answers;
    var s' := Apply(s, ServerPost);
    assert s'.replies[..|s'.replies| - 1] == s.replies;
  }

  lemma ServerServeKeeps(s: State, c: Codec)
    requires Inv(s) && s.server.Serving?
    ensures Inv(Apply(s, ServerServe(c)))
  {
    hide Answers, Serve;
    if s.buffer.word != VD_END {
      ServeAnswers(s.buffer, s.ret, c);
    }
  }

  lemma ServerStepKeeps(s: State, a: Action)
    requires Inv(s) && Enabled(s, a)
    requires a.ServerOpen? || a.ServerHello? || a.ServerWaitOk? || a.ServerWaitTimeout? || a.ServerGivesUp? || a.ServerLoop?
    ensures Inv(Apply(s, a))
  {
    hide Answers;
  }

  /** Every step of host and server keeps the invariant. */
  lemma InvStep(s: State, a: Action)
    requires Inv(s) && Enabled(s, a)
    ensures Inv(Apply(s, a))
  {
    hide Inv, Apply;
    match a
    case ServerServe(c) => ServerServeKeeps(s, c);
    case ServerPost => ServerPostKeeps(s);
    case HostOpen => HostStepKeeps(s, a);
    case HostWaitOk => HostStepKeeps(s, a);
    case HostTimeout => HostStepKeeps(s, a);
    case HostClean => HostStepKeeps(s, a);
    case HostWrite(_) => HostStepKeeps(s, a);
    case HostPost => HostStepKeeps(s, a);
    case _ => ServerStepKeeps(s, a);
  }

  lemma {:induction false} InvAlways(s: State, run: seq<Action>)
    requires Inv(s) && Possible(s, run)
    ensures Inv(After(s, run))
    decreases |run|
  {
    hide Inv;
    if run != [] {
      InvStep(s, run[0]);
      InvAlways(Apply(s, run[0]), run[1..]);
    }
  }

  ghost predicate Reachable(s: State) {
    exists b, run :: Possible(Initial(b), run) && After(Initial(b), run) == s
  }

  lemma ReachableInv(s: State)
    requires Reachable(s)
    ensures Inv(s)
  {
    var b, run :| Possible(Initial(b), run) && After(Initial(b), run) == s;
    InvInitially(b);
    InvAlways(Initial(b), run);
  }

  // ----- what follows for every run -----

  /** The shared buffer never has two owners, and once the server has posted it or a semaphore always has one. */
  lemma OneOwner(s: State)
    requires Reachable(s)
    ensures
            && !(s.host.Writes? && ServerOwns(s))
            && s.sem1 + s.sem2 <= 1
            && (Greeted(s) ==>
                  s.sem1 + s.sem2 + (if s.host.Writes? then 1 else 0) + (if ServerOwns(s) then 1 else 0) == 1)
  {
    ReachableInv(s);
  }

  /** Only the owner's steps change the buffer. */
  lemma OnlyOwnerWrites(s: State, a: Action)
    requires Reachable(s) && Enabled(s, a) && Apply(s, a).buffer != s.buffer
    ensures (a.HostWrite? && s.host.Writes? && !ServerOwns(s)) || (a.ServerServe? && ServerOwns(s) && !s.host.Writes?)
  {
    ReachableInv(s);
  }

  /**
   * Each command gets exactly one reply, and reply k answers command k with the codec's k-th answer; VD_END gets none. The one command that may
   * lack a reply is the last, while it is in sem1, with the server, or was VD_END; the host has found every reply,
   * as written, except the one still in sem2.
   */
  lemma OneReplyPerCommand(s: State)
    requires Reachable(s)
    ensures
            && |s.codecs| == |s.replies| + (if s.server.Answered? then 1 else 0)
            && (forall k :: 0 <= k < |s.replies| ==> k < |s.sent| && Answers(s.sent[k], s.replies[k], s.codecs[k]))
            && |s.sent| - |s.replies| == (if s.sem1 == 1 || ServerOwns(s) then 1 else 0)
            && s.received <= s.replies
            && |s.replies| - |s.received| == (if s.sem2 == 1 && s.replies != [] then 1 else 0)
            && (s.server.Exited? && s.server.holding ==> s.sent[|s.sent| - 1].word == VD_END)
  {
    ReachableInv(s);
  }

  /** What the server serves is what the host last posted; what the host finds is what the server last posted. */
  lemma BufferArrivesIntact(s: State, a: Action)
    requires Reachable(s) && Enabled(s, a)
    ensures a.ServerWaitOk? ==> s.sent != [] && s.buffer == s.sent[|s.sent| - 1]
    ensures a.HostWaitOk? && s.replies != [] ==> s.buffer == s.replies[|s.replies| - 1]
    ensures Apply(s, a).sent == if a.HostPost? then s.sent + [s.buffer] else s.sent
    ensures Apply(s, a).codecs == if a.ServerServe? && s.buffer.word != 1 then s.codecs + [a.c] else s.codecs
    ensures Apply(s, a).replies == if a.ServerPost? then s.replies + [s.buffer] else s.replies
    ensures Apply(s, a).received == if a.HostWaitOk? && s.replies != [] then s.received + [s.buffer] else s.received
  {
    ReachableInv(s);
  }

  /** No deadlock: with the server connected and not gone, whoever is due can move. */
  lemma SomeoneCanMove(s: State)
    requires Reachable(s) && Connected(s) && !s.server.Exited?
    ensures Enabled(s, HostPost) || Enabled(s, HostWaitOk) || Enabled(s, HostClean) || Enabled(s, ServerWaitOk)
            || Enabled(s, ServerHello) || Enabled(s, ServerPost) || Enabled(s, ServerLoop) || s.server.Serving?
  {
    ReachableInv(s);
  }

  /** A time-out changes nothing at all, except that the host's very first wait also removes the semaphore names. */
  lemma TimeoutsAreHarmless(s: State, a: Action)
    requires Reachable(s) && Enabled(s, a) && (a.HostTimeout? || a.HostClean? || a.ServerWaitTimeout?)
    ensures Apply(s, a) == s <==> a.ServerWaitTimeout? || (a.HostTimeout? && s.initialized)
    ensures Apply(s, a).(host := s.host, initialized := s.initialized, linked := s.linked) == s
    ensures Apply(s, a).linked != s.linked <==> a.HostClean? && !Connected(s)
  {
    ReachableInv(s);
  }

  /**
   * What the host's wait answers when its time has run out: a failed removal of the names resets the error that says so.
   */
  function TimeoutAnswer(s: State): int
    requires s.host.Cleans? || s.host.Waits?
  {
    if s.host.Cleans? && !s.linked then 0 else DS_TIMEOUT
  }

  /**
   * The host's timed-out wait is not reported as a time-out exactly when it is the first and the server has opened in
   * the meantime.
   */
  lemma TimeoutMisreportedIff(s: State)
    requires Reachable(s) && (s.host.Cleans? || s.host.Waits?)
    ensures TimeoutAnswer(s) != DS_TIMEOUT <==> s.host.Cleans? && Connected(s)
  {
    ReachableInv(s);
  }

  /** It does happen: the host's first wait runs out while the server is between opening and posting. */
  lemma TimeoutMisreportedExample(b: Buffer)
    ensures var run := [HostOpen, ServerOpen, HostTimeout];
            && Possible(Initial(b), run)
            && After(Initial(b), run).host.Cleans? && TimeoutAnswer(After(Initial(b), run)) == 0
  {
    var run := [HostOpen, ServerOpen, HostTimeout];
    var s1 := Apply(Initial(b), HostOpen);
    var s2 := Apply(s1, ServerOpen);
    var s3 := Apply(s2, HostTimeout);
    assert run[1..] == [ServerOpen, HostTimeout] && run[1..][1..] == [HostTimeout] && run[1..][1..][1..] == [];
    assert Possible(s3, []) && After(s3, []) == s3;
    assert Possible(s2, [HostTimeout]) && After(s2, [HostTimeout]) == s3;
    assert Possible(s1, run[1..]) && After(s1, run[1..]) == s3;
  }

  /**
   * A server that starts gets its semaphores exactly when the host has opened them and not yet come back from a wait.
   */
  lemma ServerConnectsIff(s: State)
    requires Reachable(s) && s.server.Unstarted?
    ensures Connected(Apply(s, ServerOpen)) <==> !s.host.Closed? && !s.initialized
  {
    ReachableInv(s);
  }

  /** After one timed-out first wait no run ever brings host and server together. */
  lemma {:induction false} LateServerNeverConnects(s: State, run: seq<Action>)
    requires Inv(s) && !Connected(s) && s.host.Waits? && s.initialized && Possible(s, run)
    ensures var r := After(s, run); !Connected(r) && r.host.Waits? && r.sem2 == 0 && r.sent == []
    decreases |run|
  {
    if run != [] {
      InvStep(s, run[0]);
      LateServerNeverConnects(Apply(s, run[0]), run[1..]);
    }
  }

  /** A host whose first wait times out before the server starts waits for ever. */
  lemma FirstTimeoutLosesServer(b: Buffer, run: seq<Action>)
    requires Possible(Initial(b), [HostOpen, HostTimeout, HostClean] + run)
    ensures !Connected(After(Initial(b), [HostOpen, HostTimeout, HostClean] + run))
  {
    assert [HostOpen, HostTimeout, HostClean] + run == [HostOpen] + ([HostTimeout] + ([HostClean] + run));
    InvInitially(b);
    AfterFirst(Initial(b), HostOpen, [HostTimeout] + ([HostClean] + run));
    var s1 := Apply(Initial(b), HostOpen);
    InvStep(Initial(b), HostOpen);
    AfterFirst(s1, HostTimeout, [HostClean] + run);
    var s2 := Apply(s1, HostTimeout);
    InvStep(s1, HostTimeout);
    AfterFirst(s2, HostClean, run);
    InvStep(s2, HostClean);
    LateServerNeverConnects(Apply(s2, HostClean), run);
  }

  lemma AfterFirst(s: State, a: Action, rest: seq<Action>)
    requires Possible(s, [a] + rest)
    ensures Enabled(s, a) && Possible(Apply(s, a), rest) && After(s, [a] + rest) == After(Apply(s, a), rest)
  {
    assert ([a] + rest)[1..] == rest;
  }

  /** The server leaves its loop after a reply exactly when the command was illegal or the decoder returned -1. */
  lemma ServerLeavesIff(s: State, c: Codec)
    requires Reachable(s) && s.server.Serving? && s.buffer.word != VD_END
    ensures var posted := Apply(Apply(s, ServerServe(c)), ServerPost);
            Apply(posted, ServerLoop).server.Exited? <==>
            !Legal(s.buffer.word) || (s.buffer.word == VD_DECODE && c.ret == MINUS_ONE)
  {
    ReachableInv(s);
  }

  /**
   * The reply word tells the host whether the server is gone, except in two families: a header reload of another size
   * answers -1 and the server goes on, and an illegal command is answered by its own number.
   */
  lemma ReplyTellsExitIff(s: State, c: Codec)
    requires Reachable(s) && s.server.Serving? && s.buffer.word != VD_END
    ensures var posted := Apply(Apply(s, ServerServe(c)), ServerPost);
            (posted.buffer.word == MINUS_ONE <==> Apply(posted, ServerLoop).server.Exited?)
            <==> !(s.buffer.word == VD_RELOAD_BIH && !c.sizeMatches)
                 && (Legal(s.buffer.word) || s.buffer.word == MINUS_ONE)
  {
    ReachableInv(s);
  }

  // ----- the code behind the steps -----

  /** The two named semaphores: their values, and whether the names can still be opened. */
  class Names {
    var linked: bool
    var sem1: nat
    var sem2: nat

    constructor ()
      ensures !linked && sem1 == sem2 == 0
    {
      linked, sem1, sem2 := false, 0, 0;
    }

    ghost predicate HasValues(s: State)
      reads this
    {
      s.sem1 == sem1 && s.sem2 == sem2
    }
  }

  /** struct sem in its semaphore mode: the host reads sem2 and writes sem1, the server the other way round. */
  class Sem {
    const names: Names
    const isHost: bool
    var initialized: bool

    constructor (names: Names, isHost: bool)
      ensures this.names == names && this.isHost == isHost && initialized == !isHost
    {
      this.names := names;
      this.isHost := isHost;
      this.initialized := !isHost;
    }

    /** What this side and the semaphores are in a state of the protocol. */
    ghost predicate Shows(s: State)
      reads this, names
    {
      && s.linked == names.linked && s.sem1 == names.sem1 && s.sem2 == names.sem2
      && (isHost ==> s.initialized == initialized)
      && (!isHost ==> initialized)
    }

    /**
     * timed_semwait: 1 if the semaphore was not at zero; otherwise the time-out code, but 0 if the removal of the names
     * failed and reset the error number. For either side it is that side's step, or two for the host's first time-out.
     */
    method TimedSemwait() returns (ok: int)
      modifies this, names
      ensures ok == if old(if isHost then names.sem2 else names.sem1) > 0 then 1
                    else if old(!initialized && !names.linked) then 0
                    else DS_TIMEOUT
      ensures forall s: State :: old(Shows(s)) && isHost && s.host.Waits? ==>
                                   HostWaited(s, ok) && Shows(AfterHostWait(s, ok))
      ensures forall s: State :: old(Shows(s)) && !isHost && s.server.Polling? ==>
                var a := if ok == 1 then ServerWaitOk else ServerWaitTimeout;
                Enabled(s, a) && Shows(Apply(s, a))
    {
      ok := 0;
      var timedOut := true;
      if isHost && names.sem2 > 0 {
        names.sem2 := names.sem2 - 1;
        ok := 1;
      } else if !isHost && names.sem1 > 0 {
        names.sem1 := names.sem1 - 1;
        ok := 1;
      }
      if !initialized {
        var failed := TimedSemclean();
        timedOut := !failed;
        initialized := true;
      }
      if ok == 0 && timedOut {
        ok := DS_TIMEOUT;
      }
    }

    /** timed_sempost. */
    method TimedSempost()
      modifies names
      ensures forall s: State :: old(Shows(s)) && isHost && s.host.Writes? ==> Shows(Apply(s, HostPost))
      ensures forall s: State :: old(Shows(s)) && !isHost && s.server.Answered? ==> Shows(Apply(s, ServerPost))
      ensures names.linked == old(names.linked)
      ensures names.sem1 == old(names.sem1) + (if isHost then 1 else 0)
      ensures names.sem2 == old(names.sem2) + (if isHost then 0 else 1)
    {
      if isHost {
        names.sem1 := names.sem1 + 1;
      } else {
        names.sem2 := names.sem2 + 1;
      }
    }

    /** timed_semclean. Removing names that are gone fails, and leaves another error number. */
    method TimedSemclean() returns (failed: bool)
      modifies names
      ensures !names.linked && names.sem1 == old(names.sem1) && names.sem2 == old(names.sem2)
      ensures failed == !old(names.linked)
    {
      failed := !names.linked;
      names.linked := false;
    }
  }

  /** The host's wait with this answer is possible. */
  predicate HostWaited(s: State, ok: int) {
    if ok == 1 then Enabled(s, HostWaitOk)
    else
      && Enabled(s, HostTimeout)
      && ok == TimeoutAnswer(Apply(s, HostTimeout))
  }

  function AfterHostWait(s: State, ok: int): State
    requires HostWaited(s, ok)
  {
    if ok == 1 then Apply(s, HostWaitOk)
    else if s.initialized then Apply(s, HostTimeout)
    else Apply(Apply(s, HostTimeout), HostClean)
  }

  /** timed_seminit; null stands for the exit of a server that finds no semaphores. */
  method TimedSeminit(names: Names, isHost: bool) returns (sem: Sem?)
    modifies names
    ensures sem == null <==> !isHost && !old(names.linked)
    ensures sem != null ==> fresh(sem) && sem.names == names && sem.isHost == isHost
    ensures forall s: State :: isHost && old(names.HasValues(s)) && s.host.Closed? && !s.initialized ==>
                                 sem.Shows(Apply(s, HostOpen))
    ensures forall s: State :: !isHost && old(names.HasValues(s)) && s.server.Unstarted? && s.linked && sem != null ==>
                                 sem.Shows(Apply(Apply(s, ServerOpen), ServerHello))
  {
    if isHost {
      names.linked := true;
      sem := new Sem(names, true);
    } else {
      if !names.linked {
        return null;
      }
      sem := new Sem(names, false);
      names.linked := false;
      sem.TimedSempost();
    }
  }

  /** The mapped vd_struct and the frame buffer behind it. */
  class SharedMemory {
    var word: Word
    var pts: nat
    var data: nat
    var picture: nat

    ghost function Contents(): Buffer
      reads this
    {
      Buffer(word, pts, data, picture)
    }

    constructor (b: Buffer)
      ensures Contents() == b
    {
      word, pts, data, picture := b.word, b.pts, b.data, b.picture;
    }
  }

  /** The switch of the command loop. over says that the server exits without a reply. */
  method ServeCommand(vd: SharedMemory, ret: Word, c: Codec) returns (ret': Word, over: bool)
    modifies vd
    ensures over <==> old(vd.word) == VD_END
    ensures over ==> vd.Contents() == old(vd.Contents())
    ensures !over ==> (vd.Contents(), ret') == Serve(old(vd.Contents()), ret, c)
    ensures !over ==> Answers(old(vd.Contents()), vd.Contents(), c)
  {
    ret', over := ret, false;
    if vd.word == VD_END {
      over := true;
    } else if vd.word == VD_DECODE {
      vd.word := c.ret;
      vd.picture := c.picture;
      vd.pts := c.pts;
      ret' := vd.word;
    } else if vd.word == VD_SEEK {
      ret' := 0;
      vd.word := 0;
    } else if vd.word == VD_RELOAD_BIH {
      if !c.sizeMatches {
        vd.word := MINUS_ONE;
      } else {
        vd.word := 0;
      }
    } else {
      ret' := MINUS_ONE;
    }
  }
}
