// The interlace flags of delivered frames. A sample announces its format only when
// it differs from the previous sample's, so the flags in force are those of the
// last announcement; DS_Filter_CopySample writes them into a slot only with one.
module FrameFlags {
  import opened FrameRing
  import opened FrameRuns

  /** The ring's log, the flags in force, and for every arrival since the last seek the flags in force when it came. */
  datatype History = History(log: Log, inForce: nat, flags: seq<nat>)

  /** An announcement of VideoInfo2 sets the flags, one of another format has none, and silence changes nothing. */
  function InForceAfter(inForce: nat, t: MediaType): nat {
    match t
    case Unchanged => inForce
    case VideoInfo2(flags) => flags
    case OtherFormat => 0
  }

  function Start(inForce: nat): History {
    History(FRESH, inForce, [])
  }

  predicate Good(h: History) {
    Inv(h.log) && |h.flags| == |h.log.arrived|
  }

  function Next(h: History, e: Event): (r: History)
    requires Good(h)
    ensures Good(r)
  {
    var log := Stepped(h.log, e);
    match e
    case Copy(s) =>
      var now := InForceAfter(h.inForce, s.mediaType);
      History(log, now, if s.pointerFails then h.flags else h.flags + [now])
    case Seek => History(log, h.inForce, [])
    case _ => History(log, h.inForce, h.flags)
  }

  function Reached(h: History, run: seq<Event>): (r: History)
    requires Good(h)
    ensures Good(r)
    decreases |run|
  {
    if run == [] then h else Reached(Next(h, run[0]), run[1..])
  }

  /** Frame k of the queue has the flags that were in force for the arrival tags[k]. */
  predicate Flagged(q: seq<Frame>, tags: seq<nat>, flags: seq<nat>) {
    |q| == |tags| && forall k :: 0 <= k < |q| ==> tags[k] < |flags| && q[k].interlace == flags[tags[k]]
  }

  predicate FlagsRight(h: History)
    requires Good(h)
  {
    Flagged(Queue(h.log.ring), Tags(h.log.books), h.flags)
  }

  /** The slot the next sample goes to. */
  function TargetSlot(h: History): Frame
    requires Good(h)
  {
    At(h.log.ring, Target(h.log.ring))
  }

  /**
   * In every reachable state a new frame has the flags in force exactly when its own sample announces VideoInfo2 or
   * the slot happens to hold them already.
   */
  lemma NewFrameFlagsIff(inForce: nat, run: seq<Event>, s: Sample)
    requires !s.pointerFails
    ensures Good(Start(inForce))
    ensures var h := Reached(Start(inForce), run);
            var h' := Next(h, Copy(s));
            At(h'.log.ring, Target(h.log.ring)).interlace == h'.inForce
            <==> s.mediaType.VideoInfo2? || TargetSlot(h).interlace == h'.inForce
  {
    FreshInv();
    var h := Reached(Start(inForce), run);
    PutElsewhere(h.log.ring, Target(h.log.ring), Filled(s, TargetSlot(h).interlace));
  }

  /**
   * What spoils the flags: a frame without an announcement into a slot with other flags, or a failing sample with one
   * while the ring is full.
   */
  predicate Spoils(h: History, e: Event)
    requires Good(h)
  {
    e.Copy? &&
    var s, former := e.s, TargetSlot(h).interlace;
    if s.pointerFails then
      |Queue(h.log.ring)| == PD_MAX_FRAMES && s.mediaType.VideoInfo2? && s.mediaType.interlaceFlags != former
    else
      !s.mediaType.VideoInfo2? && InForceAfter(h.inForce, s.mediaType) != former
  }

  lemma StartIsGood(inForce: nat)
    ensures Good(Start(inForce)) && FlagsRight(Start(inForce))
  {
    FreshInv();
    ClearedIsEmpty();
  }

  lemma QueueTagged(h: History)
    requires Good(h)
    ensures |Queue(h.log.ring)| == |Tags(h.log.books)| <= PD_MAX_FRAMES && |h.log.books.held| <= 1
    ensures h.log.books.count == |h.flags|
    ensures forall k :: 0 <= k < |Tags(h.log.books)| ==> Tags(h.log.books)[k] < |h.flags|
  {
    HeldAtMostOne(h.log);
  }

  lemma FlaggedAppend(q: seq<Frame>, tags: seq<nat>, flags: seq<nat>, f: Frame, now: nat)
    requires Flagged(q, tags, flags)
    ensures Flagged(q + [f], tags + [|flags|], flags + [now]) <==> f.interlace == now
  {
    var q', tags', flags' := q + [f], tags + [|flags|], flags + [now];
    forall k | 0 <= k < |q| ensures q'[k] == q[k] && tags'[k] == tags[k] && flags'[tags[k]] == flags[tags[k]] {
    }
    assert q'[|q|] == f && tags'[|q|] == |flags| && flags'[|flags|] == now;
  }

  lemma FlaggedTake(q: seq<Frame>, tags: seq<nat>, flags: seq<nat>, n: nat)
    requires Flagged(q, tags, flags) && n <= |q|
    ensures Flagged(q[..n], tags[..n], flags)
  {
  }

  lemma ArrivedParts(h: History, s: Sample)
    requires Good(h) && !s.pointerFails
    ensures var h' := Next(h, Copy(s));
            && h'.log.books == Enqueue(h.log.books)
            && h'.flags == h.flags + [InForceAfter(h.inForce, s.mediaType)]
            && Queue(h'.log.ring) == Arrive(Queue(h.log.ring), Filled(s, TargetSlot(h).interlace))
  {
    assert Valid(h.log.ring) && Shaped(h.log.ring);
    hide Valid, Queue, AfterCopy, InOrder, Accounted, QueueMatches, Enqueue, Target, At;
    CopyIsArrival(h.log.ring, s);
  }

  lemma NewFlagsIff(h: History, s: Sample)
    requires Good(h) && !s.pointerFails
    ensures Filled(s, TargetSlot(h).interlace).interlace == InForceAfter(h.inForce, s.mediaType)
            <==> !Spoils(h, Copy(s))
  {
    hide Good, TargetSlot;
  }

  /** An arrival keeps all flags right exactly when its own are. */
  lemma ArrivalKeepsFlagsIff(h: History, s: Sample)
    requires Good(h) && FlagsRight(h) && !s.pointerFails
    ensures FlagsRight(Next(h, Copy(s))) <==> !Spoils(h, Copy(s))
  {
    var f := Filled(s, TargetSlot(h).interlace);
    var q, b := Queue(h.log.ring), h.log.books;
    var now := InForceAfter(h.inForce, s.mediaType);
    QueueTagged(h);
    hide Good, Next, Tags, Filled, Spoils, Queue, Enqueue, Flagged, TargetSlot, InForceAfter;
    NewFlagsIff(h, s);
    ArrivedParts(h, s);
    EnqueueTags(b);
    if |q| < PD_MAX_FRAMES {
      FlaggedAppend(q, Tags(b), h.flags, f, now);
    } else {
      var last := PD_MAX_FRAMES - 1;
      FlaggedTake(q, Tags(b), h.flags, last);
      FlaggedAppend(q[..last], Tags(b)[..last], h.flags, f, now);
    }
  }

  /** A failing sample keeps them right unless it overwrites the newest frame's flags in a full ring. */
  lemma FailureKeepsFlagsIff(h: History, s: Sample)
    requires Good(h) && FlagsRight(h) && s.pointerFails
    ensures FlagsRight(Next(h, Copy(s))) <==> !Spoils(h, Copy(s))
  {
    var r, r' := h.log.ring, AfterCopy(h.log.ring, s);
    var t := Target(r);
    var f := At(r, t).(interlace := Interlace(s, At(r, t).interlace));
    FailedCopyAddsNothing(r, s);
    PutElsewhere(r, t, f);
    QueueTagged(h);
    assert Next(h, Copy(s)).log.books == h.log.books && Next(h, Copy(s)).flags == h.flags;
    assert Next(h, Copy(s)).log.ring == r';
    var q, q', tags := Queue(r), Queue(r'), Tags(h.log.books);
    forall k | 0 <= k < |q| ensures q'[k] == if k == t then f else q[k] {
    }
    if t < |q| {
      assert q[t] == At(r, t);
    }
    hide Good, Next, Tags, Queue, At, Target, Put, AfterCopy;
  }

  lemma HandTags(b: Books)
    ensures Tags(Hand(b)) == Tags(b)
  {
  }

  lemma ReturnTags(b: Books)
    requires |b.held| <= 1
    ensures Tags(Return(b)) == if b.held == [] then Tags(b) else Tags(b)[1..]
  {
  }

  lemma HeadSentIffHeld(h: History)
    requires Good(h)
    ensures h.log.books.held != [] <==> Queue(h.log.ring) != [] && Queue(h.log.ring)[0].state == Sent
  {
  }

  lemma FlaggedHeadSent(q: seq<Frame>, tags: seq<nat>, flags: seq<nat>)
    requires Flagged(q, tags, flags) && q != []
    ensures Flagged([q[0].(state := Sent)] + q[1..], tags, flags)
  {
  }

  lemma FlaggedDrop(q: seq<Frame>, tags: seq<nat>, flags: seq<nat>)
    requires Flagged(q, tags, flags) && q != []
    ensures Flagged(q[1..], tags[1..], flags)
  {
  }

  lemma DecodedParts(h: History)
    requires Good(h)
    ensures var q, h' := Queue(h.log.ring), Next(h, Decode);
            && h'.log.books == Hand(h.log.books) && h'.flags == h.flags
            && Queue(h'.log.ring) == if q == [] then [] else [q[0].(state := Sent)] + q[1..]
  {
    assert Valid(h.log.ring) && Shaped(h.log.ring);
    hide Valid, Queue, AfterDeliver, InOrder, Accounted, QueueMatches, Hand;
    DeliverMarksHead(h.log.ring);
  }

  lemma DecodeKeepsFlags(h: History)
    requires Good(h) && FlagsRight(h)
    ensures FlagsRight(Next(h, Decode))
  {
    DecodedParts(h);
    HandTags(h.log.books);
    hide Good, Next, Tags, Queue, Flagged, Hand;
    if Queue(h.log.ring) != [] {
      FlaggedHeadSent(Queue(h.log.ring), Tags(h.log.books), h.flags);
    }
  }

  lemma FreedParts(h: History)
    requires Good(h)
    ensures var q, h' := Queue(h.log.ring), Next(h, FreeFrame);
            && h'.log.books == Return(h.log.books) && h'.flags == h.flags
            && Queue(h'.log.ring) == if q != [] && q[0].state == Sent then q[1..] else q
  {
    assert Valid(h.log.ring) && Shaped(h.log.ring);
    hide Valid, Queue, AfterFreeFrame, InOrder, Accounted, QueueMatches, Return;
    FreeFrameDropsSentHead(h.log.ring);
  }

  lemma FreeFrameKeepsFlags(h: History)
    requires Good(h) && FlagsRight(h)
    ensures FlagsRight(Next(h, FreeFrame))
  {
    FreedParts(h);
    QueueTagged(h);
    ReturnTags(h.log.books);
    HeadSentIffHeld(h);
    hide Good, Next, Tags, Queue, Flagged, Return;
    if Queue(h.log.ring) != [] {
      FlaggedDrop(Queue(h.log.ring), Tags(h.log.books), h.flags);
    }
  }

  /** One event spoils the flags of the queue exactly under the guard that can be checked before it. */
  lemma FlagsKeptIff(h: History, e: Event)
    requires Good(h) && FlagsRight(h)
    ensures FlagsRight(Next(h, e)) <==> !Spoils(h, e)
  {
    if e.Copy? {
      if e.s.pointerFails {
        FailureKeepsFlagsIff(h, e.s);
      } else {
        ArrivalKeepsFlagsIff(h, e.s);
      }
    } else if e.Decode? {
      DecodeKeepsFlags(h);
    } else if e.FreeFrame? {
      FreeFrameKeepsFlags(h);
    } else {
      ClearedIsEmpty();
    }
  }

  /** No event of the run spoils the flags. */
  predicate NeverSpoilt(h: History, run: seq<Event>)
    requires Good(h)
    decreases |run|
  {
    run != [] ==> !Spoils(h, run[0]) && NeverSpoilt(Next(h, run[0]), run[1..])
  }

  /**
   * Over any unspoilt run every queued frame, and so every delivered one, has the flags that were in force when it came.
   */
  lemma {:induction false} FlagsRightAlways(h: History, run: seq<Event>)
    requires Good(h) && FlagsRight(h) && NeverSpoilt(h, run)
    ensures FlagsRight(Reached(h, run))
    decreases |run|
  {
    if run != [] {
      FlagsKeptIff(h, run[0]);
      hide Good, FlagsRight, Next, Spoils;
      FlagsRightAlways(Next(h, run[0]), run[1..]);
    }
  }

  /**
   * A filter that announces VideoInfo2 with every sample, and never fails to give a pointer, is always delivered right.
   */
  lemma {:induction false} AlwaysAnnouncedIsRight(h: History, run: seq<Event>)
    requires Good(h) && FlagsRight(h)
    requires forall e <- run :: e.Copy? ==> e.s.mediaType.VideoInfo2? && !e.s.pointerFails
    ensures FlagsRight(Reached(h, run))
    decreases |run|
  {
    if run != [] {
      assert run[0] in run;
      assert !Spoils(h, run[0]);
      FlagsKeptIff(h, run[0]);
      hide Good, FlagsRight, Next, Spoils;
      AlwaysAnnouncedIsRight(Next(h, run[0]), run[1..]);
    }
  }

  lemma FirstArrival(inForce: nat, s: Sample)
    requires !s.pointerFails
    ensures Good(Start(inForce))
    ensures var h := Next(Start(inForce), Copy(s));
            && |Queue(h.log.ring)| == 1 && Target(h.log.ring) == 1 && TargetSlot(h).interlace == 0
            && h.inForce == InForceAfter(inForce, s.mediaType)
            && (s.mediaType.VideoInfo2? ==> FlagsRight(h))
  {
    StartIsGood(inForce);
    CopyIsArrival(CLEARED, s);
    ClearedIsEmpty();
    PutElsewhere(CLEARED, 0, Filled(s, 0));
    if s.mediaType.VideoInfo2? {
      assert !Spoils(Start(inForce), Copy(s));
      FlagsKeptIff(Start(inForce), Copy(s));
    }
  }

  /** An interlaced stream that announces its format once: already the second frame has lost the flags. */
  lemma UnchangedLosesFlags(first: Sample, second: Sample)
    requires first.mediaType == VideoInfo2(1) && second.mediaType == Unchanged
    requires !first.pointerFails && !second.pointerFails
    ensures Good(Start(0))
    ensures var h := Next(Next(Start(0), Copy(first)), Copy(second));
            h.inForce == 1 && At(h.log.ring, 1).interlace == 0 && !FlagsRight(h)
  {
    FirstArrival(0, first);
    var h := Next(Start(0), Copy(first));
    assert Spoils(h, Copy(second));
    FlagsKeptIff(h, Copy(second));
    CopyIsArrival(h.log.ring, second);
    PutElsewhere(h.log.ring, 1, Filled(second, 0));
  }

  /** A sample that never became a frame leaves its flags in the slot; a frame of a format without flags gets them. */
  lemma OtherFormatGetsStaleFlags(failed: Sample, other: Sample)
    requires failed.mediaType == VideoInfo2(1) && failed.pointerFails
    requires other.mediaType == OtherFormat && !other.pointerFails
    ensures Good(Start(0))
    ensures var h := Next(Next(Start(0), Copy(failed)), Copy(other));
            h.inForce == 0 && At(h.log.ring, 0).interlace == 1 && !FlagsRight(h)
  {
    StartIsGood(0);
    ClearedIsEmpty();
    var h := Next(Start(0), Copy(failed));
    assert !Spoils(Start(0), Copy(failed));
    FlagsKeptIff(Start(0), Copy(failed));
    FailedCopyAddsNothing(CLEARED, failed);
    PutElsewhere(CLEARED, 0, At(CLEARED, 0).(interlace := 1));
    assert Target(h.log.ring) == 0 && TargetSlot(h).interlace == 1;
    assert Spoils(h, Copy(other));
    FlagsKeptIff(h, Copy(other));
    CopyIsArrival(h.log.ring, other);
    PutElsewhere(h.log.ring, 0, Filled(other, 1));
  }
}
