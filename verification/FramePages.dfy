// What the page locks are for: a frame that waits in the ring, or is with the host,
// keeps its page. DS_Filter_CopySample locks the page of an arriving frame and
// DS_VideoDecoder_FreeFrame unlocks that of the frame given back.
module FramePages {
  import opened FrameRing
  import opened MachineWords
  import A = PageArena
  import R = PageRuns

  /** The ring and the page allocator it locks pages of. */
  datatype Store = Store(ring: Ring, mem: A.Mem)

  ghost predicate Good(t: Store) {
    Valid(t.ring) && A.Valid(t.mem)
  }

  /** The allocator's other calls; the arena itself is laid out once, before the codec starts. */
  datatype Event = Copy(s: Sample) | Decode | FreeFrame | Seek | Client(c: R.Call)

  ghost predicate Allowed(t: Store, e: Event)
    requires Good(t)
  {
    e.Client? ==> R.Allowed(t.mem, e.c) && !e.c.SetLock? && !e.c.SetMemstruct?
  }

  ghost function After(t: Store, e: Event): Store
    requires Good(t)
  {
    match e
    case Copy(s) => Store(AfterCopy(t.ring, s), if s.pointerFails then t.mem else A.AfterSetLock(t.mem, s.pointer, 1))
    case Decode => Store(AfterDeliver(t.ring), t.mem)
    case FreeFrame =>
      Store(AfterFreeFrame(t.ring),
            if At(t.ring, 0).state == Sent then A.AfterSetLock(t.mem, At(t.ring, 0).pointer, 0) else t.mem)
    case Seek => Store(CLEARED, t.mem)
    case Client(c) => Store(t.ring, R.After(t.mem, c))
  }

  lemma GoodKept(t: Store, e: Event)
    requires Good(t) && Allowed(t, e)
    ensures Good(After(t, e))
  {
    match e {
      case Copy(s) =>
        if s.pointerFails {
          FailedCopyAddsNothing(t.ring, s);
        } else {
          CopyIsArrival(t.ring, s);
          R.ValidKept(t.mem, R.SetLock(s.pointer, 1));
        }
      case Decode => DeliverMarksHead(t.ring);
      case FreeFrame =>
        FreeFrameDropsSentHead(t.ring);
        R.ValidKept(t.mem, R.SetLock(At(t.ring, 0).pointer, 0));
      case Seek => ClearedIsEmpty();
      case Client(c) => R.ValidKept(t.mem, c);
    }
  }

  /** Every queued frame that lies in a page has that page locked. */
  ghost predicate Locked(q: seq<Frame>, m: A.Mem)
    requires A.Shaped(m)
  {
    forall k: nat, i: nat :: k < |q| && A.InPage(m, q[k].pointer, i) ==> m.locked[i] != 0
  }

  ghost predicate Pinned(t: Store)
    requires Good(t)
  {
    Locked(Queue(t.ring), t.mem)
  }

  /** A queued frame lies in page i. */
  predicate Holds(q: seq<Frame>, m: A.Mem, i: nat) {
    exists k :: 0 <= k < |q| && A.InPage(m, q[k].pointer, i)
  }

  /** The event takes the lock off a page some queued frame lies in, or queues a frame whose page it cannot lock. */
  ghost predicate Unpins(t: Store, e: Event)
    requires Good(t) && Allowed(t, e)
  {
    var q, m := Queue(t.ring), t.mem;
    match e
    case Copy(s) =>
      !s.pointerFails && exists i: nat :: A.InPage(m, s.pointer, i) && !A.Taken(m, i) && m.locked[i] == 0
    case FreeFrame =>
      At(t.ring, 0).state == Sent &&
      exists h: nat, i: nat ::
        A.InPage(m, At(t.ring, 0).pointer, h) && h <= i && A.Taken(m, i) && Holds(q[1..], m, i)
    case Client(c) =>
      R.Overruns(m, c) && exists i: nat :: i < A.POINTER_SIZE && Holds(q, m, i)
    case _ => false
  }

  // ----- events one by one -----

  lemma SetLockPages(m: A.Mem, p: nat, value: Byte)
    requires A.Shaped(m)
    ensures A.Shaped(A.AfterSetLock(m, p, value))
    ensures forall x: nat, i: nat :: A.InPage(A.AfterSetLock(m, p, value), x, i) <==> A.InPage(m, x, i)
    ensures forall i: nat :: i < A.MAX_PAGES ==>
              A.AfterSetLock(m, p, value).locked[i] ==
              if A.Taken(m, i) && (exists h: nat :: A.InPage(m, p, h) && h <= i) then value else m.locked[i]
  {
    hide A.Address;
    if h: nat :| A.InPage(m, p, h) {
      R.SetLockAt(m, p, h, value);
      forall j: nat | A.InPage(m, p, j) ensures j == h {
        A.PageIsUnique(m, p, j, h);
      }
    }
  }

  lemma CopyPins(t: Store, s: Sample)
    requires Good(t) && Pinned(t) && !s.pointerFails
    ensures Good(After(t, Copy(s))) && (Pinned(After(t, Copy(s))) <==> !Unpins(t, Copy(s)))
  {
    GoodKept(t, Copy(s));
    CopyIsArrival(t.ring, s);
    SetLockPages(t.mem, s.pointer, 1);
    assert t.mem.pagecount <= A.MAX_PAGES;
    var f := Filled(s, At(t.ring, Target(t.ring)).interlace);
    hide A.AfterSetLock, A.InPage, A.Valid, Valid, Queue, AfterCopy, At, Target;
    LockedArrive(Queue(t.ring), t.mem, A.AfterSetLock(t.mem, s.pointer, 1), f);
  }

  lemma LockedArrive(q: seq<Frame>, m: A.Mem, m': A.Mem, f: Frame)
    requires A.Shaped(m) && A.Shaped(m') && Locked(q, m)
    requires forall x: nat, i: nat :: A.InPage(m', x, i) <==> A.InPage(m, x, i)
    requires forall i: nat :: i < A.MAX_PAGES ==>
               m'.locked[i] == if A.Taken(m, i) && (exists h: nat :: A.InPage(m, f.pointer, h) && h <= i) then 1 else m.locked[i]
    ensures Locked(Arrive(q, f), m') <==>
            !exists i: nat :: A.InPage(m, f.pointer, i) && !A.Taken(m, i) && m.locked[i] == 0
  {
    var q' := Arrive(q, f);
    var n := |q'| - 1;
    forall x: nat, i: nat | A.InPage(m, x, i) ensures i < A.MAX_PAGES {
    }
    hide A.InPage;
    forall k | 0 <= k < n ensures q'[k] == q[k] {
    }
    assert q'[n] == f;
    if i: nat :| A.InPage(m, f.pointer, i) && !A.Taken(m, i) && m.locked[i] == 0 {
      assert A.InPage(m', q'[n].pointer, i) && m'.locked[i] == 0;
    }
  }

  /** FreeFrame unlocks every page in use from the freed frame's own page on. */
  lemma FreeFramePins(t: Store)
    requires Good(t) && Pinned(t) && At(t.ring, 0).state == Sent
    ensures Good(After(t, FreeFrame)) && (Pinned(After(t, FreeFrame)) <==> !Unpins(t, FreeFrame))
  {
    GoodKept(t, FreeFrame);
    FreeFrameDropsSentHead(t.ring);
    HeadOfQueue(t.ring);
    SetLockPages(t.mem, At(t.ring, 0).pointer, 0);
    hide A.AfterSetLock, A.InPage, A.Valid, Valid, Queue, AfterFreeFrame, At;
    LockedAfterFree(Queue(t.ring), t.mem, A.AfterSetLock(t.mem, Queue(t.ring)[0].pointer, 0));
  }

  lemma HeadOfQueue(r: Ring)
    requires Valid(r) && At(r, 0).state != Free
    ensures Queue(r) != [] && Queue(r)[0] == At(r, 0)
  {
  }

  lemma LockedAfterFree(q: seq<Frame>, m: A.Mem, m': A.Mem)
    requires q != [] && A.Shaped(m) && A.Shaped(m') && Locked(q, m)
    requires forall x: nat, i: nat :: A.InPage(m', x, i) <==> A.InPage(m, x, i)
    requires forall i: nat :: i < A.MAX_PAGES ==>
               m'.locked[i] ==
               if A.Taken(m, i) && (exists h: nat :: A.InPage(m, q[0].pointer, h) && h <= i) then 0 else m.locked[i]
    ensures Locked(q[1..], m') <==>
            !exists h: nat, i: nat ::
              A.InPage(m, q[0].pointer, h) && h <= i && A.Taken(m, i) && Holds(q[1..], m, i)
  {
    forall x: nat, i: nat | A.InPage(m, x, i) ensures i < A.MAX_PAGES {
    }
    hide A.InPage;
    if h: nat, i: nat :| A.InPage(m, q[0].pointer, h) && h <= i && A.Taken(m, i) && Holds(q[1..], m, i) {
      var k :| 0 <= k < |q[1..]| && A.InPage(m, q[1..][k].pointer, i);
      assert A.InPage(m', q[1..][k].pointer, i) && m'.locked[i] == 0;
    } else {
      forall k: nat, i: nat | k < |q[1..]| && A.InPage(m', q[1..][k].pointer, i) ensures m'.locked[i] != 0 {
        assert q[1..][k] == q[k + 1];
        assert Holds(q[1..], m, i);
      }
    }
  }

  lemma ClientPages(m: A.Mem, c: R.Call)
    requires A.Valid(m) && R.Allowed(m, c) && !c.SetLock? && !c.SetMemstruct?
    ensures A.Shaped(R.After(m, c))
    ensures forall x: nat, i: nat :: A.InPage(R.After(m, c), x, i) <==> A.InPage(m, x, i)
    ensures forall i: nat :: i < A.MAX_PAGES ==>
              R.After(m, c).locked[i] == if R.Overruns(m, c) && i < A.POINTER_SIZE then 0 else m.locked[i]
  {
    R.ValidKept(m, c);
    if c.Free? || c.Realloc? {
      A.PageOrHeap(m, c.p);
    }
    hide A.Address, A.HeapApart, A.HeapAnswer, A.OffArena;
  }

  lemma ClientPins(t: Store, c: R.Call)
    requires Good(t) && Pinned(t) && Allowed(t, Client(c))
    ensures Good(After(t, Client(c))) && (Pinned(After(t, Client(c))) <==> !Unpins(t, Client(c)))
  {
    GoodKept(t, Client(c));
    ClientPages(t.mem, c);
    hide R.After, A.InPage, A.Valid, Valid, Queue, R.Overruns, Locked, Holds;
    LockedAfterCall(Queue(t.ring), t.mem, R.After(t.mem, c), R.Overruns(t.mem, c));
  }

  lemma LockedAfterCall(q: seq<Frame>, m: A.Mem, m': A.Mem, overruns: bool)
    requires A.Shaped(m) && A.Shaped(m') && Locked(q, m)
    requires forall x: nat, i: nat :: A.InPage(m', x, i) <==> A.InPage(m, x, i)
    requires forall i: nat :: i < A.MAX_PAGES ==>
               m'.locked[i] == if overruns && i < A.POINTER_SIZE then 0 else m.locked[i]
    ensures Locked(q, m') <==> !(overruns && exists i: nat :: i < A.POINTER_SIZE && Holds(q, m, i))
  {
    forall x: nat, i: nat | A.InPage(m, x, i) ensures i < A.MAX_PAGES {
    }
    hide A.InPage;
    if i: nat :| overruns && i < A.POINTER_SIZE && Holds(q, m, i) {
      var k :| 0 <= k < |q| && A.InPage(m, q[k].pointer, i);
      assert A.InPage(m', q[k].pointer, i) && m'.locked[i] == 0;
    } else {
      forall k: nat, i: nat | k < |q| && A.InPage(m', q[k].pointer, i) ensures m'.locked[i] != 0 {
        assert Holds(q, m, i);
      }
    }
  }

  lemma InPageIsLow(m: A.Mem, p: nat, i: nat)
    requires A.InPage(m, p, i)
    ensures i < m.pagecount
  {
  }

  /** One event keeps every queued frame's page locked exactly under the guard that can be checked before it. */
  lemma PinnedKeptIff(t: Store, e: Event)
    requires Good(t) && Pinned(t) && Allowed(t, e)
    ensures Good(After(t, e)) && (Pinned(After(t, e)) <==> !Unpins(t, e))
  {
    GoodKept(t, e);
    hide A.AfterSetLock, A.InPage, A.Valid;
    match e {
      case Copy(s) =>
        if s.pointerFails {
          FailedCopyAddsNothing(t.ring, s);
          SamePointers(Queue(t.ring), Queue(AfterCopy(t.ring, s)));
        } else {
          CopyPins(t, s);
        }
      case Decode =>
        DeliverMarksHead(t.ring);
        SamePointers(Queue(t.ring), Queue(AfterDeliver(t.ring)));
      case FreeFrame =>
        if At(t.ring, 0).state == Sent {
          FreeFramePins(t);
        }
      case Seek =>
        ClearedIsEmpty();
      case Client(c) =>
        ClientPins(t, c);
    }
  }

  lemma SamePointers(q: seq<Frame>, q': seq<Frame>)
    requires |q| == |q'|
    requires forall k :: 0 <= k < |q| ==> q'[k].(interlace := 0, state := Free) == q[k].(interlace := 0, state := Free)
    ensures forall k :: 0 <= k < |q| ==> q'[k].pointer == q[k].pointer
  {
    forall k | 0 <= k < |q| ensures q'[k].pointer == q[k].pointer {
      assert q[k].(interlace := 0, state := Free).pointer == q[k].pointer;
    }
  }

  // ----- whole runs -----

  ghost predicate Possible(t: Store, run: seq<Event>)
    requires Good(t)
    decreases |run|
  {
    run == [] || (Allowed(t, run[0]) && (GoodKept(t, run[0]); Possible(After(t, run[0]), run[1..])))
  }

  ghost function Reached(t: Store, run: seq<Event>): (r: Store)
    requires Good(t) && Possible(t, run)
    ensures Good(r)
    decreases |run|
  {
    if run == [] then t
    else
      GoodKept(t, run[0]);
      Reached(After(t, run[0]), run[1..])
  }

  ghost predicate NeverUnpins(t: Store, run: seq<Event>)
    requires Good(t) && Possible(t, run)
    decreases |run|
  {
    run == [] ||
    (!Unpins(t, run[0]) && (GoodKept(t, run[0]); NeverUnpins(After(t, run[0]), run[1..])))
  }

  /**
   * Until an event unpins a page, no run of arrivals, decodes, releases and allocator calls hands the page of a queued
   * frame to anybody else: MALLOC's answer never lies in it.
   */
  lemma {:induction false} QueuedPagesAreNotReissued(t: Store, run: seq<Event>, size: nat, answer: nat)
    requires Good(t) && Pinned(t) && Possible(t, run) && NeverUnpins(t, run)
    requires A.HeapAnswer(Reached(t, run).mem, answer, size, 0)
    ensures var r := Reached(t, run);
            && Pinned(r)
            && forall i: nat :: A.InPage(r.mem, A.AfterMalloc(r.mem, size, answer).1, i) ==> !Holds(Queue(r.ring), r.mem, i)
    decreases |run|
  {
    hide Unpins, Allowed, After, A.InPage, A.AfterMalloc, A.HeapAnswer, A.Valid, Valid;
    if run == [] {
      MallocAvoidsQueue(t, size, answer);
    } else {
      PinnedKeptIff(t, run[0]);
      hide Good, Pinned;
      QueuedPagesAreNotReissued(After(t, run[0]), run[1..], size, answer);
    }
  }

  lemma MallocAvoidsQueue(t: Store, size: nat, answer: nat)
    requires Good(t) && Pinned(t) && A.HeapAnswer(t.mem, answer, size, 0)
    ensures forall i: nat ::
              A.InPage(t.mem, A.AfterMalloc(t.mem, size, answer).1, i) ==> !Holds(Queue(t.ring), t.mem, i)
  {
    R.MallocPicksAvailablePage(t.mem, size, answer);
    hide A.InPage, A.AfterMalloc, A.HeapAnswer, Valid, Queue;
    forall i: nat | A.InPage(t.mem, A.AfterMalloc(t.mem, size, answer).1, i)
      ensures !Holds(Queue(t.ring), t.mem, i)
    {
      assert A.Available(t.mem, i);
    }
  }

  /** Two frames in two locked pages, the first with the host: giving it back unlocks the page of the one that waits. */
  lemma FreeFrameUnpinsExample(first: Sample, second: Sample)
    requires !first.pointerFails && first.pointer == 1000 && !second.pointerFails && second.pointer == 1100
    ensures var m := A.Mem(2, 100, 1000, A.Blank<nat>(0)[0 := 1100][1 := 1200],
                           A.Blank<Byte>(0)[0 := 1][1 := 1], map[]);
            var t := Store(AfterDeliver(AfterCopy(AfterCopy(CLEARED, first), second)), m);
            && Good(t) && Pinned(t) && At(t.ring, 0).state == Sent
            && Good(After(t, FreeFrame)) && !Pinned(After(t, FreeFrame))
  {
    var m := A.Mem(2, 100, 1000, A.Blank<nat>(0)[0 := 1100][1 := 1200], A.Blank<Byte>(0)[0 := 1][1 := 1], map[]);
    var t := Store(AfterDeliver(AfterCopy(AfterCopy(CLEARED, first), second)), m);
    TwoArrivals(first, second);
    var q := Queue(t.ring);
    assert A.InPage(m, 1000, 0) && A.InPage(m, 1100, 1) && A.Taken(m, 1);
    assert q[1..][0] == q[1];
    assert Holds(q[1..], m, 1);
    HeadOfQueue(t.ring);
    forall k: nat, i: nat | k < |q| && A.InPage(m, q[k].pointer, i) ensures m.locked[i] != 0 {
      InPageIsLow(m, q[k].pointer, i);
    }
    assert Unpins(t, FreeFrame);
    FreeFramePins(t);
  }

  lemma TwoArrivals(first: Sample, second: Sample)
    requires !first.pointerFails && !second.pointerFails
    ensures var r := AfterDeliver(AfterCopy(AfterCopy(CLEARED, first), second));
            && Valid(r) && |Queue(r)| == 2 && At(r, 0).state == Sent
            && Queue(r)[0].pointer == first.pointer && Queue(r)[1].pointer == second.pointer
  {
    ClearedIsEmpty();
    CopyIsArrival(CLEARED, first);
    var r1 := AfterCopy(CLEARED, first);
    CopyIsArrival(r1, second);
    var r2 := AfterCopy(r1, second);
    DeliverMarksHead(r2);
    hide AfterCopy, Valid, At;
    var r := AfterDeliver(r2);
    assert Queue(r)[0].state == Sent;
    SentHead(r);
  }

  lemma SentHead(r: Ring)
    requires Valid(r) && Queue(r) != []
    ensures At(r, 0) == Queue(r)[0]
  {
  }
}
