// The frame ring over whole runs: arrivals since the last seek are numbered, and
// the books say which of them wait, are with the host, were delivered or overwritten.
module FrameRuns {
  import opened FrameRing

  /** waiting is oldest first; held is the one frame the host has, if any; delivered is in order of delivery. */
  datatype Books = Books(count: nat, held: seq<nat>, waiting: seq<nat>, delivered: seq<nat>, overwritten: seq<nat>)

  predicate Increasing(s: seq<nat>) {
    forall i, j :: 0 <= i < j < |s| ==> s[i] < s[j]
  }

  predicate Below(s: seq<nat>, n: nat) {
    forall i :: 0 <= i < |s| ==> s[i] < n
  }

  /** The first n arrivals, each once. */
  function Numbers(n: nat): multiset<nat> {
    if n == 0 then multiset{} else Numbers(n - 1) + multiset{n - 1}
  }

  predicate InOrder(b: Books) {
    && Increasing(b.delivered + b.waiting)
    && Below(b.delivered + b.waiting, b.count)
    && (b.held == [] || (b.delivered != [] && b.held == [b.delivered[|b.delivered| - 1]]))
  }

  /** Where the arrivals are: delivered, waiting or overwritten. */
  function Tally(b: Books): multiset<nat> {
    multiset(b.delivered) + multiset(b.waiting) + multiset(b.overwritten)
  }

  /** Each arrival is in exactly one place. */
  predicate Accounted(b: Books) {
    Tally(b) == Numbers(b.count)
  }

  /** The arrival numbers of the frames in the ring, head first. */
  function Tags(b: Books): seq<nat> {
    b.held + b.waiting
  }

  function Enqueue(b: Books): Books
    requires |b.held| <= 1
  {
    if |Tags(b)| < PD_MAX_FRAMES then b.(count := b.count + 1, waiting := b.waiting + [b.count])
    else
      var last := |b.waiting| - 1;
      b.(count := b.count + 1, waiting := b.waiting[..last] + [b.count], overwritten := b.overwritten + [b.waiting[last]])
  }

  function Hand(b: Books): Books {
    if b.held != [] || b.waiting == [] then b
    else b.(held := [b.waiting[0]], waiting := b.waiting[1..], delivered := b.delivered + [b.waiting[0]])
  }

  function Return(b: Books): Books {
    b.(held := [])
  }

  lemma EnqueueTags(b: Books)
    requires |b.held| <= 1 && |Tags(b)| <= PD_MAX_FRAMES
    ensures Tags(Enqueue(b)) ==
            if |Tags(b)| < PD_MAX_FRAMES then Tags(b) + [b.count]
            else Tags(b)[..PD_MAX_FRAMES - 1] + [b.count]
  {
    if |Tags(b)| == PD_MAX_FRAMES {
      assert Tags(b)[..PD_MAX_FRAMES - 1] == b.held + b.waiting[..|b.waiting| - 1];
    }
  }

  lemma ExtendOrder(s: seq<nat>, t: seq<nat>, n: nat)
    requires Increasing(s) && Below(s, n) && t <= s
    ensures Increasing(t + [n]) && Below(t + [n], n + 1)
  {
    forall i | 0 <= i < |t| ensures (t + [n])[i] == s[i] {
      assert t[i] == s[i];
    }
  }

  lemma EnqueueInOrder(b: Books)
    requires InOrder(b) && |Tags(b)| <= PD_MAX_FRAMES
    ensures InOrder(Enqueue(b))
  {
    var s := b.delivered + b.waiting;
    if |Tags(b)| < PD_MAX_FRAMES {
      assert b.delivered + Enqueue(b).waiting == s + [b.count];
      ExtendOrder(s, s, b.count);
    } else {
      var last := |b.waiting| - 1;
      assert b.delivered + Enqueue(b).waiting == s[..|s| - 1] + [b.count];
      ExtendOrder(s, s[..|s| - 1], b.count);
    }
  }

  lemma MultisetSnoc(s: seq<nat>, n: nat)
    ensures multiset(s + [n]) == multiset(s) + multiset{n}
  {
  }

  lemma OverflowTally(d: multiset<nat>, w: seq<nat>, o: seq<nat>, n: nat)
    requires w != []
    ensures d + multiset(w[..|w| - 1] + [n]) + multiset(o + [w[|w| - 1]]) == d + multiset(w) + multiset(o) + multiset{n}
  {
    var front, last := w[..|w| - 1], w[|w| - 1];
    assert w == front + [last];
    MultisetSnoc(front, last);
    MultisetSnoc(front, n);
    MultisetSnoc(o, last);
  }

  lemma EnqueueTally(b: Books)
    requires |b.held| <= 1
    ensures Tally(Enqueue(b)) == Tally(b) + multiset{b.count}
  {
    if |Tags(b)| < PD_MAX_FRAMES {
      MultisetSnoc(b.waiting, b.count);
    } else {
      OverflowTally(multiset(b.delivered), b.waiting, b.overwritten, b.count);
    }
  }

  lemma EnqueueAccounted(b: Books)
    requires Accounted(b) && |b.held| <= 1
    ensures Accounted(Enqueue(b))
  {
    EnqueueTally(b);
    hide Tally;
    assert Numbers(b.count + 1) == Numbers(b.count) + multiset{b.count};
  }

  lemma HandKeeps(b: Books)
    requires InOrder(b) && Accounted(b)
    ensures InOrder(Hand(b)) && Accounted(Hand(b))
  {
    if b.held == [] && b.waiting != [] {
      var b' := Hand(b);
      assert b'.delivered + b'.waiting == b.delivered + b.waiting;
      assert b.waiting == [b.waiting[0]] + b.waiting[1..];
    }
  }

  datatype Event = Copy(s: Sample) | Decode | FreeFrame | Seek

  /** The ring, everything that arrived since the last seek, and the books. */
  datatype Log = Log(ring: Ring, arrived: seq<Sample>, books: Books)

  const FRESH := Log(CLEARED, [], Books(0, [], [], [], []))

  function Step(l: Log, e: Event): Log
    requires Shaped(l.ring) && |l.books.held| <= 1
  {
    match e
    case Copy(s) =>
      var ring := AfterCopy(l.ring, s);
      if s.pointerFails then l.(ring := ring) else Log(ring, l.arrived + [s], Enqueue(l.books))
    case Decode => Log(AfterDeliver(l.ring), l.arrived, Hand(l.books))
    case FreeFrame => Log(AfterFreeFrame(l.ring), l.arrived, Return(l.books))
    case Seek => FRESH
  }

  /** The frame has the sample's address and time, and its actual length, or its buffer's size when that length is 0. */
  predicate Carries(f: Frame, s: Sample) {
    && f.pointer == s.pointer && f.pts == s.pts
    && (s.actualLength != 0 ==> f.size == s.actualLength)
    && (s.actualLength == 0 ==> f.size == s.size)
  }

  /** Frame k of the queue carries the arrival tags[k], and the host has the first held of them. */
  predicate Tagged(q: seq<Frame>, tags: seq<nat>, held: nat, arrived: seq<Sample>) {
    && |q| == |tags| && held <= |q|
    && (forall k :: 0 <= k < |q| ==> tags[k] < |arrived| && Carries(q[k], arrived[tags[k]]))
    && (forall k :: 0 <= k < |q| ==> (q[k].state == Sent <==> k < held))
  }

  /**
   * The queue holds what arrived, under the numbers the books give: first the frame with the host, then those that wait.
   */
  predicate QueueMatches(q: seq<Frame>, arrived: seq<Sample>, b: Books) {
    |q| <= PD_MAX_FRAMES && b.count == |arrived| && Tagged(q, Tags(b), |b.held|, arrived)
  }

  predicate Inv(l: Log) {
    && Valid(l.ring)
    && InOrder(l.books) && Accounted(l.books)
    && QueueMatches(Queue(l.ring), l.arrived, l.books)
  }

  lemma QueueHead(r: Ring)
    requires Valid(r)
    ensures Queue(r) == [] <==> At(r, 0).state == Free
    ensures Queue(r) != [] ==> Queue(r)[0] == At(r, 0)
    ensures forall k :: 0 < k < |Queue(r)| ==> Queue(r)[k].state == Set
  {
  }

  lemma TaggedAppend(q: seq<Frame>, tags: seq<nat>, held: nat, arrived: seq<Sample>, s: Sample, former: nat)
    requires Tagged(q, tags, held, arrived)
    ensures Tagged(q + [Filled(s, former)], tags + [|arrived|], held, arrived + [s])
  {
    assert Carries(Filled(s, former), s);
    hide Carries;
  }

  lemma EnqueueFields(b: Books)
    requires |b.held| <= 1
    ensures Enqueue(b).count == b.count + 1 && Enqueue(b).held == b.held
  {
  }

  lemma TaggedTake(q: seq<Frame>, tags: seq<nat>, held: nat, arrived: seq<Sample>, n: nat)
    requires Tagged(q, tags, held, arrived) && held <= n <= |q|
    ensures Tagged(q[..n], tags[..n], held, arrived)
  {
    hide Carries;
  }

  lemma ArriveMatches(q: seq<Frame>, arrived: seq<Sample>, b: Books, s: Sample, former: nat)
    requires QueueMatches(q, arrived, b) && |b.held| <= 1
    ensures QueueMatches(Arrive(q, Filled(s, former)), arrived + [s], Enqueue(b))
  {
    assert |q| == |Tags(b)| <= PD_MAX_FRAMES;
    EnqueueTags(b);
    EnqueueFields(b);
    hide Tags, Tagged, Filled, Enqueue;
    if |q| < PD_MAX_FRAMES {
      TaggedAppend(q, Tags(b), |b.held|, arrived, s, former);
    } else {
      var last := PD_MAX_FRAMES - 1;
      TaggedTake(q, Tags(b), |b.held|, arrived, last);
      TaggedAppend(q[..last], Tags(b)[..last], |b.held|, arrived, s, former);
    }
  }

  lemma HeldAtMostOne(l: Log)
    requires Inv(l)
    ensures |l.books.held| <= 1 && |Tags(l.books)| <= PD_MAX_FRAMES
  {
  }

  lemma CopyKeeps(l: Log, s: Sample)
    requires Inv(l)
    ensures Inv(Step(l, Copy(s)))
  {
    assert Shaped(l.ring);
    hide Valid, AfterCopy, Queue, Numbers, QueueMatches, At, Target, InOrder, Accounted, Enqueue, Arrive, Filled;
    HeldAtMostOne(l);
    if s.pointerFails {
      FailedCopyAddsNothing(l.ring, s);
      FailedCopyMatches(Queue(l.ring), Queue(AfterCopy(l.ring, s)), l.arrived, l.books);
    } else {
      CopyIsArrival(l.ring, s);
      EnqueueInOrder(l.books);
      EnqueueAccounted(l.books);
      ArriveMatches(Queue(l.ring), l.arrived, l.books, s, At(l.ring, Target(l.ring)).interlace);
    }
  }

  lemma FailedCopyMatches(q: seq<Frame>, q': seq<Frame>, arrived: seq<Sample>, b: Books)
    requires QueueMatches(q, arrived, b) && |q'| == |q|
    requires forall k :: 0 <= k < |q| ==> q'[k].(interlace := 0) == q[k].(interlace := 0)
    ensures QueueMatches(q', arrived, b)
  {
    forall k | 0 <= k < |q|
      ensures q'[k].state == q[k].state && q'[k].pointer == q[k].pointer && q'[k].size == q[k].size && q'[k].pts == q[k].pts
    {
      var f, f' := q[k].(interlace := 0), q'[k].(interlace := 0);
      assert f == f';
      assert q[k].state == f.state && q[k].pointer == f.pointer && q[k].size == f.size && q[k].pts == f.pts;
    }
  }

  lemma DecodeKeeps(l: Log)
    requires Inv(l)
    ensures Inv(Step(l, Decode))
  {
    HeldAtMostOne(l);
    assert Shaped(l.ring);
    hide Valid, AfterDeliver, Queue, Accounted, InOrder, Hand, QueueMatches, Tags;
    DeliverMarksHead(l.ring);
    HandKeeps(l.books);
    SentMatches(Queue(l.ring), l.arrived, l.books);
  }

  lemma SentMatches(q: seq<Frame>, arrived: seq<Sample>, b: Books)
    requires QueueMatches(q, arrived, b) && |b.held| <= 1
    ensures QueueMatches(if q == [] then [] else [q[0].(state := Sent)] + q[1..], arrived, Hand(b))
  {
    if q != [] {
      var q' := [q[0].(state := Sent)] + q[1..];
      assert Tags(Hand(b)) == Tags(b);
      hide Tags;
      assert |Hand(b).held| == 1;
      forall k | 0 <= k < |q'| ensures q'[k] == if k == 0 then q[0].(state := Sent) else q[k] {
      }
    }
  }

  lemma FreeKeeps(l: Log)
    requires Inv(l)
    ensures Inv(Step(l, FreeFrame))
  {
    HeldAtMostOne(l);
    assert Shaped(l.ring);
    assert InOrder(Return(l.books)) && Accounted(Return(l.books));
    hide Valid, AfterFreeFrame, Queue, Accounted, InOrder, Return, QueueMatches, Tags;
    FreeFrameDropsSentHead(l.ring);
    ReturnMatches(Queue(l.ring), l.arrived, l.books);
  }

  lemma ReturnMatches(q: seq<Frame>, arrived: seq<Sample>, b: Books)
    requires QueueMatches(q, arrived, b) && |b.held| <= 1
    ensures QueueMatches(if q != [] && q[0].state == Sent then q[1..] else q, arrived, Return(b))
  {
    var tags, tags' := Tags(b), Tags(Return(b));
    if b.held != [] {
      assert tags' == tags[1..];
      var q' := q[1..];
      hide Tags;
      forall k | 0 <= k < |q'| ensures q'[k] == q[k + 1] && tags'[k] == tags[k + 1] {
      }
    }
  }

  lemma FreshInv()
    ensures Inv(FRESH)
  {
    ClearedIsEmpty();
  }

  /** Every event keeps ring, arrivals and books in step. */
  lemma InvKept(l: Log, e: Event)
    requires Inv(l)
    ensures Inv(Step(l, e))
  {
    hide Inv;
    match e
    case Copy(s) => CopyKeeps(l, s);
    case Decode => DecodeKeeps(l);
    case FreeFrame => FreeKeeps(l);
    case Seek => FreshInv();
  }

  function After(l: Log, run: seq<Event>): (r: Log)
    requires Inv(l)
    ensures Inv(r)
    decreases |run|
  {
    if run == [] then l
    else
      InvKept(l, run[0]);
      After(Step(l, run[0]), run[1..])
  }

  lemma {:induction false} NumbersAre(n: nat)
    ensures |Numbers(n)| == n
    ensures forall k: nat :: Numbers(n)[k] == if k < n then 1 else 0
  {
    if n > 0 {
      NumbersAre(n - 1);
    }
  }

  /**
   * Over any run: frames go to the host in order of arrival, and every arrival since the last seek is
   * exactly one of delivered, waiting in the queue, or overwritten.
   */
  lemma DeliveredOnceInOrder(run: seq<Event>)
    ensures Inv(FRESH)
    ensures var b := After(FRESH, run).books;
            && Increasing(b.delivered + b.waiting)
            && |b.delivered| + |b.waiting| + |b.overwritten| == b.count == |After(FRESH, run).arrived|
            && (forall n: nat :: n < b.count ==>
                  multiset(b.delivered)[n] + multiset(b.waiting)[n] + multiset(b.overwritten)[n] == 1)
  {
    FreshInv();
    var b := After(FRESH, run).books;
    NumbersAre(b.count);
    assert |multiset(b.delivered) + multiset(b.waiting) + multiset(b.overwritten)| == |Numbers(b.count)|;
    forall n: nat | n < b.count
      ensures multiset(b.delivered)[n] + multiset(b.waiting)[n] + multiset(b.overwritten)[n] == 1
    {
      assert (multiset(b.delivered) + multiset(b.waiting) + multiset(b.overwritten))[n] == Numbers(b.count)[n];
    }
  }

  /**
   * What a decode hands over, and GetPTS then reports, is the oldest waiting arrival with its own contents and time.
   */
  lemma DecodeDeliversOldest(l: Log)
    requires Inv(l) && l.books.held == [] && l.books.waiting != []
    ensures var n := l.books.waiting[0];
            var head := At(Step(l, Decode).ring, 0);
            && n < |l.arrived|
            && head.state == Sent && Carries(head, l.arrived[n])
            && Step(l, Decode).books.delivered == l.books.delivered + [n]
            && (forall k <- l.books.delivered :: k < n)
  {
    QueueHead(l.ring);
    var q := Queue(l.ring);
    assert q[0] == At(l.ring, 0) && q[0].state == Set;
    PutElsewhere(l.ring, 0, At(l.ring, 0).(state := Sent));
    var s := l.books.delivered + l.books.waiting;
    forall k <- l.books.delivered ensures k < l.books.waiting[0] {
      var i :| 0 <= i < |l.books.delivered| && l.books.delivered[i] == k;
      assert s[i] == k && s[|l.books.delivered|] == l.books.waiting[0];
    }
  }

  /**
   * Over any run: a frame handed to the host is as long as its sample's data, and as long as the sample's buffer
   * exactly when the codec left the data length at 0.
   */
  lemma DeliveredSize(run: seq<Event>)
    ensures Inv(FRESH)
    ensures var l := After(FRESH, run);
            l.books.held == [] && l.books.waiting != [] ==>
              var n := l.books.waiting[0];
              && n < |l.arrived|
              && At(Step(l, Decode).ring, 0).state == Sent
              && At(Step(l, Decode).ring, 0).size ==
                 if l.arrived[n].actualLength == 0 then l.arrived[n].size else l.arrived[n].actualLength
  {
    FreshInv();
    var l := After(FRESH, run);
    if l.books.held == [] && l.books.waiting != [] {
      DecodeDeliversOldest(l);
    }
  }

  lemma {:induction false} ArrivalsKeepHeld(l: Log, arrivals: seq<Event>)
    requires Inv(l) && forall e <- arrivals :: e.Copy?
    ensures After(l, arrivals).books.held == l.books.held
    ensures After(l, arrivals).books.delivered == l.books.delivered
    decreases |arrivals|
  {
    if arrivals != [] {
      assert arrivals[0] in arrivals;
      InvKept(l, arrivals[0]);
      HeldAtMostOne(l);
      assert Step(l, arrivals[0]).books.held == l.books.held;
      assert Step(l, arrivals[0]).books.delivered == l.books.delivered;
      hide Step, Inv;
      ArrivalsKeepHeld(Step(l, arrivals[0]), arrivals[1..]);
    }
  }

  function Stepped(l: Log, e: Event): (r: Log)
    requires Inv(l)
    ensures Inv(r)
  {
    InvKept(l, e);
    Step(l, e)
  }

  /** The next arrival after those delivered so far has been handed over with its own address, length and time. */
  predicate HandedOver(delivered: seq<nat>, n: nat, done: Log)
    requires Shaped(done.ring)
  {
    && n < |done.arrived| && (forall k <- delivered :: k < n)
    && done.books.delivered == delivered + [n]
    && Carries(At(done.ring, 0), done.arrived[n])
  }

  /**
   * The server's decode command frees the host's frame, lets the codec hand over any number of samples, and delivers:
   * if anything is waiting then, the host gets the oldest undelivered arrival, and GetPTS reports that arrival's own time.
   */
  lemma DecodeCommand(l: Log, arrivals: seq<Event>)
    requires Inv(l) && forall e <- arrivals :: e.Copy?
    ensures var filled := After(Stepped(l, FreeFrame), arrivals);
            var done := Stepped(filled, Decode);
            && filled.books.held == []
            && (filled.books.waiting != [] ==> HandedOver(l.books.delivered, filled.books.waiting[0], done))
            && (filled.books.waiting == [] ==> done.books.delivered == l.books.delivered)
  {
    var freed := Stepped(l, FreeFrame);
    assert freed.books.held == [] && freed.books.delivered == l.books.delivered;
    hide Inv, Carries, Valid, Queue, At;
    ArrivalsKeepHeld(freed, arrivals);
    var filled := After(freed, arrivals);
    if filled.books.waiting != [] {
      DecodeDeliversOldest(filled);
    }
  }

  /** While the host has a frame, arrivals and further decodes change neither it nor what GetPTS reports. */
  lemma {:induction false} SentFrameStays(l: Log, run: seq<Event>)
    requires Inv(l) && At(l.ring, 0).state == Sent
    requires forall e <- run :: e.Copy? || e.Decode?
    ensures At(After(l, run).ring, 0) == At(l.ring, 0)
    decreases |run|
  {
    if run != [] {
      assert run[0] in run;
      if run[0].Copy? {
        ArrivalSparesSentFrame(l.ring, run[0].s);
      }
      InvKept(l, run[0]);
      assert At(Step(l, run[0]).ring, 0) == At(l.ring, 0);
      hide Step, Inv, At;
      SentFrameStays(Step(l, run[0]), run[1..]);
    }
  }
}
