// The ring of decoded frames between the codec and the server: filled by
// DS_Filter_CopySample, delivered and freed by DS_VideoDecoder.
module FrameRing {
  import A = PageArena

  const PD_MAX_FRAMES := 10

  /** The state of a slot: free, filled (PD_SET), or handed to the host (PD_SENT). */
  datatype SlotState = Free | Set | Sent

  datatype Frame = Frame(pointer: nat, size: int, state: SlotState, interlace: nat, pts: nat)

  const EMPTY := Frame(0, 0, Free, 0, 0)

  datatype Ring = Ring(lastFrame: nat, frame: seq<Frame>)

  const CLEARED := Ring(0, [EMPTY, EMPTY, EMPTY, EMPTY, EMPTY, EMPTY, EMPTY, EMPTY, EMPTY, EMPTY])

  /** What GetMediaType says about a sample. */
  datatype MediaType = Unchanged | VideoInfo2(interlaceFlags: nat) | OtherFormat

  /** A decoded sample as the filter hands it over. pointerFails is a failing GetPointer. */
  datatype Sample = Sample(mediaType: MediaType, pointerFails: bool, pointer: nat, actualLength: int, size: int, pts: nat)

  predicate Shaped(r: Ring) {
    |r.frame| == PD_MAX_FRAMES && r.lastFrame < PD_MAX_FRAMES
  }

  /** The slot k places behind lastFrame. */
  function Slot(r: Ring, k: nat): (i: nat)
    requires r.lastFrame < PD_MAX_FRAMES
    ensures i < PD_MAX_FRAMES
  {
    (r.lastFrame + k) % PD_MAX_FRAMES
  }

  function At(r: Ring, k: nat): Frame
    requires Shaped(r)
  {
    r.frame[Slot(r, k)]
  }

  /** How many slots from lastFrame on are in use before the first free one. */
  function CountFrom(r: Ring, k: nat): (n: nat)
    requires Shaped(r) && k <= PD_MAX_FRAMES
    ensures k <= n <= PD_MAX_FRAMES
    ensures forall j :: k <= j < n ==> At(r, j).state != Free
    ensures n < PD_MAX_FRAMES ==> At(r, n).state == Free
    decreases PD_MAX_FRAMES - k
  {
    if k == PD_MAX_FRAMES || At(r, k).state == Free then k else CountFrom(r, k + 1)
  }

  function Count(r: Ring): nat
    requires Shaped(r)
  {
    CountFrom(r, 0)
  }

  /** The slots in use are one cyclic run from lastFrame, and only its head can be with the host. */
  predicate Valid(r: Ring) {
    && Shaped(r)
    && (forall k :: Count(r) <= k < PD_MAX_FRAMES ==> At(r, k).state == Free)
    && (forall k :: 0 < k < PD_MAX_FRAMES ==> At(r, k).state != Sent)
  }

  /** The queue the ring implements, head first. */
  function Queue(r: Ring): (q: seq<Frame>)
    requires Shaped(r)
    ensures |q| == Count(r)
    ensures forall k :: 0 <= k < |q| ==> q[k] == At(r, k) && q[k].state != Free
  {
    seq(Count(r), k requires 0 <= k < Count(r) => At(r, k))
  }

  lemma CountIs(r: Ring, n: nat)
    requires Shaped(r) && n <= PD_MAX_FRAMES
    requires forall k :: 0 <= k < n ==> At(r, k).state != Free
    requires n < PD_MAX_FRAMES ==> At(r, n).state == Free
    ensures Count(r) == n
  {
  }

  lemma SlotsDiffer(r: Ring, j: nat, k: nat)
    requires r.lastFrame < PD_MAX_FRAMES && j < PD_MAX_FRAMES && k < PD_MAX_FRAMES
    ensures Slot(r, j) == Slot(r, k) <==> j == k
  {
  }

  lemma FirstSlot(r: Ring)
    requires r.lastFrame < PD_MAX_FRAMES
    ensures Slot(r, 0) == r.lastFrame
  {
  }

  lemma NextSlot(r: Ring, k: nat)
    requires r.lastFrame < PD_MAX_FRAMES && k < PD_MAX_FRAMES
    ensures (Slot(r, k) + 1) % PD_MAX_FRAMES == Slot(r, k + 1)
    ensures Slot(r, k + 1) == r.lastFrame <==> k == PD_MAX_FRAMES - 1
  {
  }

  // ----- arrival -----

  /** Where an arriving sample goes: the first free slot behind the run, or over the newest frame. */
  function Target(r: Ring): (k: nat)
    requires Shaped(r)
    ensures k < PD_MAX_FRAMES
  {
    if Count(r) < PD_MAX_FRAMES then Count(r) else PD_MAX_FRAMES - 1
  }

  function Length(s: Sample): int {
    if s.actualLength == 0 then s.size else s.actualLength
  }

  function Interlace(s: Sample, former: nat): nat {
    if s.mediaType.VideoInfo2? then s.mediaType.interlaceFlags else former
  }

  function Filled(s: Sample, former: nat): Frame {
    Frame(s.pointer, Length(s), Set, Interlace(s, former), s.pts)
  }

  function Put(r: Ring, k: nat, f: Frame): Ring
    requires Shaped(r)
  {
    r.(frame := r.frame[Slot(r, k) := f])
  }

  function AfterCopy(r: Ring, s: Sample): Ring
    requires Shaped(r)
  {
    var k := Target(r);
    if s.pointerFails then Put(r, k, At(r, k).(interlace := Interlace(s, At(r, k).interlace)))
    else Put(r, k, Filled(s, At(r, k).interlace))
  }

  /** The queue seen by the codec: at most ten frames, and an eleventh replaces the newest. */
  function Arrive(q: seq<Frame>, f: Frame): seq<Frame> {
    if |q| < PD_MAX_FRAMES then q + [f] else q[..PD_MAX_FRAMES - 1] + [f]
  }

  /** An arrival extends the queue, replacing its newest frame only when all ten slots are taken. */
  lemma CopyIsArrival(r: Ring, s: Sample)
    requires Valid(r) && !s.pointerFails
    ensures Valid(AfterCopy(r, s))
    ensures Queue(AfterCopy(r, s)) == Arrive(Queue(r), Filled(s, At(r, Target(r)).interlace))
    ensures AfterCopy(r, s).lastFrame == r.lastFrame
  {
    hide Slot, At, Put;
    var t := Target(r);
    var r' := AfterCopy(r, s);
    PutElsewhere(r, t, Filled(s, At(r, t).interlace));
    CountIs(r', t + 1);
  }

  lemma PutElsewhere(r: Ring, t: nat, f: Frame)
    requires Shaped(r) && t < PD_MAX_FRAMES
    ensures Shaped(Put(r, t, f)) && Put(r, t, f).lastFrame == r.lastFrame
    ensures At(Put(r, t, f), t) == f
    ensures forall k: nat :: k < PD_MAX_FRAMES && k != t ==> At(Put(r, t, f), k) == At(r, k)
  {
    forall k: nat | k < PD_MAX_FRAMES && k != t ensures At(Put(r, t, f), k) == At(r, k) {
      SlotsDiffer(r, t, k);
    }
  }

  /** A sample without a pointer adds no frame; all it can change is an interlace flag. */
  lemma FailedCopyAddsNothing(r: Ring, s: Sample)
    requires Valid(r) && s.pointerFails
    ensures Valid(AfterCopy(r, s)) && AfterCopy(r, s).lastFrame == r.lastFrame
    ensures |Queue(AfterCopy(r, s))| == |Queue(r)|
    ensures forall k :: 0 <= k < |Queue(r)| ==>
              Queue(AfterCopy(r, s))[k].(interlace := 0) == Queue(r)[k].(interlace := 0)
  {
    hide Slot, At, Put;
    var t := Target(r);
    var r' := AfterCopy(r, s);
    PutElsewhere(r, t, At(r, t).(interlace := Interlace(s, At(r, t).interlace)));
    CountIs(r', Count(r));
  }

  /** A frame the host holds is never touched by an arrival, even with the ring full. */
  lemma ArrivalSparesSentFrame(r: Ring, s: Sample)
    requires Valid(r) && At(r, 0).state == Sent
    ensures AfterCopy(r, s).lastFrame == r.lastFrame && At(AfterCopy(r, s), 0) == At(r, 0)
  {
    SlotsDiffer(r, Target(r), 0);
  }

  // ----- delivery -----

  function MarkSent(r: Ring): Ring
    requires Shaped(r)
  {
    Put(r, 0, At(r, 0).(state := Sent))
  }

  /** A delivering decode marks the head of the queue. */
  function AfterDeliver(r: Ring): Ring
    requires Shaped(r)
  {
    if At(r, 0).state == Set then MarkSent(r) else r
  }

  lemma HeadReplaced(r: Ring, r': Ring)
    requires Valid(r) && Count(r) > 0 && Shaped(r') && At(r', 0) == At(r, 0).(state := Sent)
    requires forall k: nat :: 0 < k < PD_MAX_FRAMES ==> At(r', k) == At(r, k)
    ensures Valid(r') && Queue(r') == [Queue(r)[0].(state := Sent)] + Queue(r)[1..]
  {
    hide Slot, At;
    CountIs(r', Count(r));
  }

  lemma DeliverMarksHead(r: Ring)
    requires Valid(r)
    ensures Valid(AfterDeliver(r)) && AfterDeliver(r).lastFrame == r.lastFrame
    ensures Queue(AfterDeliver(r)) ==
            if Queue(r) == [] then [] else [Queue(r)[0].(state := Sent)] + Queue(r)[1..]
  {
    if At(r, 0).state == Set {
      PutElsewhere(r, 0, At(r, 0).(state := Sent));
      HeadReplaced(r, AfterDeliver(r));
    }
  }

  function AfterFreeFrame(r: Ring): Ring
    requires Shaped(r)
  {
    if At(r, 0).state == Sent then
      Put(r, 0, At(r, 0).(state := Free)).(lastFrame := Slot(r, 1))
    else r
  }

  lemma HeadDropped(r: Ring, r': Ring)
    requires Valid(r) && Count(r) > 0 && Shaped(r')
    requires forall k: nat :: k < PD_MAX_FRAMES - 1 ==> At(r', k) == At(r, k + 1)
    requires At(r', PD_MAX_FRAMES - 1).state == Free
    ensures Valid(r') && Queue(r') == Queue(r)[1..]
  {
    hide Slot, At;
    CountIs(r', Count(r) - 1);
  }

  /** FreeFrame takes the head off the queue if the host has it, and does nothing otherwise. */
  lemma FreeFrameDropsSentHead(r: Ring)
    requires Valid(r)
    ensures Valid(AfterFreeFrame(r))
    ensures Queue(AfterFreeFrame(r)) == if Queue(r) != [] && Queue(r)[0].state == Sent then Queue(r)[1..] else Queue(r)
  {
    if At(r, 0).state == Sent {
      var freed := Put(r, 0, At(r, 0).(state := Free));
      PutElsewhere(r, 0, At(r, 0).(state := Free));
      var r' := AfterFreeFrame(r);
      Advanced(freed);
      HeadDropped(r, r');
    }
  }

  lemma AdvancedSlot(r: Ring, k: nat)
    requires r.lastFrame < PD_MAX_FRAMES && k < PD_MAX_FRAMES
    ensures Slot(r.(lastFrame := Slot(r, 1)), k) == Slot(r, k + 1)
    ensures k == PD_MAX_FRAMES - 1 ==> Slot(r, k + 1) == Slot(r, 0)
  {
  }

  /** Moving lastFrame one slot on shifts every position by one, the old head going to the back. */
  lemma Advanced(r: Ring)
    requires Shaped(r)
    ensures var r' := r.(lastFrame := Slot(r, 1));
            && Shaped(r')
            && (forall k: nat :: k < PD_MAX_FRAMES - 1 ==> At(r', k) == At(r, k + 1))
            && At(r', PD_MAX_FRAMES - 1) == At(r, 0)
  {
    hide Slot;
    var r' := r.(lastFrame := Slot(r, 1));
    forall k: nat | k < PD_MAX_FRAMES - 1 ensures At(r', k) == At(r, k + 1) {
      AdvancedSlot(r, k);
    }
    AdvancedSlot(r, PD_MAX_FRAMES - 1);
  }

  lemma ClearedIsEmpty()
    ensures Valid(CLEARED) && Queue(CLEARED) == []
  {
    CountIs(CLEARED, 0);
  }

  /**
   * The status word of a decode: bit 0 a frame, bit 1 it is in a shared page, bit 4 interlaced, the page from bit 8 on.
   */
  function Status(page: int, interlace: nat): (r: nat)
    requires page >= -1
    ensures r / 256 == if page == -1 then 0 else page
    ensures r % 256 == 1 + (if page == -1 then 0 else 2) + (if interlace == 0 then 0 else 16)
  {
    (if page == -1 then 0 else 2 + 256 * page) + 1 + (if interlace != 0 then 16 else 0)
  }

  lemma EvenPart(a: nat, b: nat)
    ensures (2 * a + b) % 2 == b % 2
  {
  }

  lemma HalfOf(page: nat, low: nat)
    ensures (256 * page + low) / 2 == 128 * page + low / 2
  {
  }

  lemma SixteenthOf(page: nat, low: nat)
    ensures (256 * page + low) / 16 == 16 * page + low / 16
  {
  }

  lemma LowBits(page: nat, low: nat)
    requires low < 256
    ensures (256 * page + low) % 2 == low % 2
    ensures (256 * page + low) / 2 % 2 == low / 2 % 2
    ensures (256 * page + low) / 16 % 2 == low / 16 % 2
  {
    EvenPart(128 * page, low);
    HalfOf(page, low);
    EvenPart(64 * page, low / 2);
    SixteenthOf(page, low);
    EvenPart(8 * page, low / 16);
  }

  lemma StatusBits(page: int, interlace: nat)
    requires page >= -1
    ensures var r := Status(page, interlace);
            && r % 2 == 1
            && r / 2 % 2 == (if page == -1 then 0 else 1)
            && r / 16 % 2 == (if interlace == 0 then 0 else 1)
            && (page >= 0 ==> r / 256 == page)
  {
    hide Status;
    LowBits(Status(page, interlace) / 256, Status(page, interlace) % 256);
  }

  /** What a decode copied into the caller's picture. */
  datatype Picture = Untouched | CopyOf(pointer: nat, size: int)

  class FrameBuffer {
    const arena: A.Arena
    const frame: array<Frame>
    var lastFrame: nat

    ghost function State(): Ring
      reads this, frame
    {
      Ring(lastFrame, frame[..])
    }

    ghost predicate Consistent()
      reads this, frame, arena, arena.used, arena.locked
    {
      Valid(State()) && arena.Consistent()
    }

    constructor (arena: A.Arena)
      requires arena.Consistent()
      ensures Consistent() && this.arena == arena && fresh(frame) && State() == CLEARED
    {
      this.arena := arena;
      lastFrame := 0;
      frame := new Frame[PD_MAX_FRAMES](_ => EMPTY);
      new;
      ClearedIsEmpty();
      assert frame[..] == CLEARED.frame;
    }

    /** DS_Filter_CopySample, run by one streaming thread. */
    method CopySample(s: Sample) returns (r: int)
      requires Consistent()
      modifies frame, arena.locked
      ensures Consistent() && State() == AfterCopy(old(State()), s)
      ensures r == if s.pointerFails then 1 else 0
      ensures s.pointerFails ==> |Queue(State())| == old(|Queue(State())|)
      ensures !s.pointerFails ==>
                var f := At(State(), Count(State()) - 1);
                && Count(State()) == (if old(Count(State())) < PD_MAX_FRAMES then old(Count(State())) + 1 else PD_MAX_FRAMES)
                && f.state == Set && f.pointer == s.pointer && f.pts == s.pts
                && f.size == (if s.actualLength == 0 then s.size else s.actualLength)
      ensures arena.State() == if s.pointerFails then old(arena.State()) else A.AfterSetLock(old(arena.State()), s.pointer, 1)
    {
      ghost var ring := State();
      var i := FindSlot();
      if s.pointerFails {
        FailedCopyAddsNothing(ring, s);
      } else {
        CopyIsArrival(ring, s);
      }
      assert Shaped(ring);
      hide A.Valid, Valid, Slot, Target, A.AfterSetLock;
      r := Fill(i, s);
    }

    method Fill(i: nat, s: Sample) returns (r: int)
      requires arena.Consistent() && i < frame.Length
      modifies frame, arena.locked
      ensures arena.Consistent()
      ensures r == if s.pointerFails then 1 else 0
      ensures frame[..] == old(frame[..])[i :=
                if s.pointerFails then old(frame[i]).(interlace := Interlace(s, old(frame[i]).interlace))
                else Filled(s, old(frame[i]).interlace)]
      ensures arena.State() == if s.pointerFails then old(arena.State()) else A.AfterSetLock(old(arena.State()), s.pointer, 1)
    {
      hide A.Valid, A.AfterSetLock;
      if s.mediaType.VideoInfo2? {
        frame[i] := frame[i].(interlace := s.mediaType.interlaceFlags);
      }
      if s.pointerFails {
        return 1;
      }
      var len := s.actualLength;
      if len == 0 {
        len := s.size;
      }
      frame[i] := frame[i].(pts := s.pts);
      arena.SetLock(s.pointer, 1);
      frame[i] := frame[i].(pointer := s.pointer, size := len, state := Set);
      r := 0;
    }

    /** The cyclic scan for a free slot, which settles for the newest frame when it comes round. */
    method FindSlot() returns (i: nat)
      requires Consistent()
      ensures i == Slot(State(), Target(State()))
    {
      ghost var ring := State();
      assert Shaped(ring);
      hide Valid, A.Valid, Slot;
      i := lastFrame;
      ghost var k := 0;
      FirstSlot(ring);
      while true
        invariant k < PD_MAX_FRAMES && i == Slot(ring, k)
        invariant forall j :: 0 <= j < k ==> At(ring, j).state != Free
        decreases PD_MAX_FRAMES - k
      {
        var j := (i + 1) % PD_MAX_FRAMES;
        NextSlot(ring, k);
        if frame[i].state == Free {
          CountIs(ring, k);
          break;
        }
        if j == lastFrame {
          CountIs(ring, PD_MAX_FRAMES);
          break;
        }
        i := j;
        k := k + 1;
      }
    }

    /** The end of DS_VideoDecoder_DecodeInternal, after the codec has returned. */
    method Deliver(wantsPicture: bool) returns (ret: int, picture: Picture)
      requires Consistent()
      modifies frame
      ensures Consistent() && State() == AfterDeliver(old(State()))
      ensures var head := old(At(State(), 0));
              var page := A.PagenumOf(arena.State(), head.pointer);
              if head.state != Set then ret == 0 && picture == Untouched
              else
                && ret == Status(page, head.interlace)
                && picture == if page == -1 && wantsPicture then CopyOf(head.pointer, head.size) else Untouched
    {
      ghost var ring := State();
      DeliverMarksHead(ring);
      FirstSlot(ring);
      assert Shaped(ring);
      hide Valid, A.Valid, Slot, A.PagenumOf;
      ret := 0;
      picture := Untouched;
      if frame[lastFrame].state == Set {
        var page := arena.GetPagenum(frame[lastFrame].pointer);
        if page != -1 {
          ret := ret + 2 + page * 256;
        } else if wantsPicture {
          picture := CopyOf(frame[lastFrame].pointer, frame[lastFrame].size);
        }
        ret := ret + 1;
        frame[lastFrame] := frame[lastFrame].(state := Sent);
        if frame[lastFrame].interlace != 0 {
          ret := ret + 16;
        }
        assert State() == AfterDeliver(ring);
      }
    }

    /** DS_VideoDecoder_GetPTS. */
    method GetPTS() returns (pts: nat)
      requires Consistent()
      ensures pts == At(State(), 0).pts
    {
      FirstSlot(State());
      hide A.Valid;
      pts := frame[lastFrame].pts;
    }

    /** DS_VideoDecoder_FreeFrame. */
    method FreeFrame()
      requires Consistent()
      modifies this, frame, arena.locked
      ensures Consistent() && State() == AfterFreeFrame(old(State()))
      ensures arena.State() ==
              if old(At(State(), 0)).state == Sent then A.AfterSetLock(old(arena.State()), old(At(State(), 0)).pointer, 0)
              else old(arena.State())
    {
      ghost var ring := State();
      FreeFrameDropsSentHead(ring);
      FirstSlot(ring);
      NextSlot(ring, 0);
      assert Shaped(ring);
      hide A.Valid, Valid, Slot, A.AfterSetLock;
      if frame[lastFrame].state == Sent {
        frame[lastFrame] := frame[lastFrame].(state := Free);
        arena.SetLock(frame[lastFrame].pointer, 0);
        lastFrame := (lastFrame + 1) % PD_MAX_FRAMES;
        assert State() == AfterFreeFrame(ring);
      }
    }

    /** The memset of DS_VideoDecoder_SeekInternal. Page locks are left as they are. */
    method Seek()
      requires Consistent()
      modifies this, frame
      ensures Consistent() && State() == CLEARED
    {
      forall i | 0 <= i < PD_MAX_FRAMES { frame[i] := EMPTY; }
      lastFrame := 0;
      ClearedIsEmpty();
      assert frame[..] == CLEARED.frame;
    }
  }
}
