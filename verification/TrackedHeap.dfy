// The tracked heap of loader/win32.c: every allocation carries a header that
// links it into one list, and the blocks that hold synchronisation objects are
// threaded on a second list.
module TrackedHeap {

  datatype AreaType = Client | Event | MutexArea | Cond | CritSect

  /** The life of memmut: initialised by the first allocation, destroyed by the last release. */
  datatype LockState = Destroyed | Unlocked | Locked

  const DEADBEEF := 0xdeadbeef
  const MAX_FATAL := 8

  /** An allocation: its header, its bytes and, for an event, the links of the mutex_list inside it. */
  class Block {
    var prev: Block?
    var next: Block?
    var deadbeef: int
    var size: nat
    var kind: AreaType
    var data: seq<bv8>
    var mprev: Block?
    var mnext: Block?

    constructor (size: nat, kind: AreaType, data: seq<bv8>)
      ensures this.prev == this.next == this.mprev == this.mnext == null
      ensures this.deadbeef == DEADBEEF && this.size == size && this.kind == kind && this.data == data
    {
      this.prev, this.next, this.mprev, this.mnext := null, null, null, null;
      this.deadbeef := DEADBEEF;
      this.size := size;
      this.kind := kind;
      this.data := data;
    }
  }

  ghost predicate Distinct(s: seq<Block>) {
    forall i, j :: 0 <= i < j < |s| ==> s[i] != s[j]
  }

  lemma DistinctAppend(s: seq<Block>, b: Block)
    requires Distinct(s) && b !in s
    ensures Distinct(s + [b])
  {
  }

  function Before(s: seq<Block>, i: int): Block?
    requires 0 <= i < |s|
  {
    if i == 0 then null else s[i - 1]
  }

  function Behind(s: seq<Block>, i: int): Block?
    requires 0 <= i < |s|
  {
    if i == |s| - 1 then null else s[i + 1]
  }

  function Last(s: seq<Block>): Block? {
    if s == [] then null else s[|s| - 1]
  }

  /** s is the allocation list, oldest first: prev walks it backwards and next mirrors prev. */
  ghost predicate Chained(s: seq<Block>)
    reads s`prev, s`next
  {
    && Distinct(s)
    && (forall i {:trigger s[i].prev} :: 0 <= i < |s| ==> s[i].prev == Before(s, i))
    && (forall i {:trigger s[i].next} :: 0 <= i < |s| ==> s[i].next == Behind(s, i))
  }

  /** The same for the list of synchronisation objects. */
  ghost predicate EventChained(s: seq<Block>)
    reads s`mprev, s`mnext
  {
    && Distinct(s)
    && (forall i {:trigger s[i].mprev} :: 0 <= i < |s| ==> s[i].mprev == Before(s, i))
    && (forall i {:trigger s[i].mnext} :: 0 <= i < |s| ==> s[i].mnext == Behind(s, i))
  }

  ghost function Without(s: seq<Block>, k: int): seq<Block>
    requires 0 <= k < |s|
  {
    s[..k] + s[k + 1..]
  }

  /** s with its first occurrence of b taken out. */
  ghost function Minus(s: seq<Block>, b: Block): seq<Block> {
    if s == [] then [] else if s[0] == b then s[1..] else [s[0]] + Minus(s[1..], b)
  }

  lemma {:induction false} MinusIsWithout(s: seq<Block>, k: int)
    requires Distinct(s) && 0 <= k < |s|
    ensures Minus(s, s[k]) == Without(s, k)
  {
    if k > 0 {
      MinusIsWithout(s[1..], k - 1);
      assert s[1..][k - 1] == s[k];
    }
  }

  lemma {:induction false} MinusMembers(s: seq<Block>, b: Block)
    requires Distinct(s)
    ensures forall x :: x in Minus(s, b) <==> x in s && x != b
  {
    if s != [] {
      MinusMembers(s[1..], b);
    }
  }

  lemma {:induction false} MinusAbsent(s: seq<Block>, b: Block)
    requires b !in s
    ensures Minus(s, b) == s
  {
    if s != [] {
      MinusAbsent(s[1..], b);
    }
  }

  /** Which blocks still have their header's guard word as the allocator wrote it. */
  ghost function Guards(s: seq<Block>): (g: seq<bool>)
    reads s`deadbeef
    ensures |g| == |s| && forall i :: 0 <= i < |s| ==> g[i] == (s[i].deadbeef == DEADBEEF)
  {
    if s == [] then [] else Guards(s[..|s| - 1]) + [s[|s| - 1].deadbeef == DEADBEEF]
  }

  lemma GuardsOfPrefix(s: seq<Block>, n: nat)
    requires n <= |s|
    ensures Guards(s[..n]) == Guards(s)[..n]
  {
    hide Guards;
    forall i | 0 <= i < n ensures Guards(s[..n])[i] == Guards(s)[i] {
    }
  }

  twostate lemma GuardsKept(s: seq<Block>)
    requires forall b <- s :: b.deadbeef == old(b.deadbeef)
    ensures Guards(s) == old(Guards(s))
  {
    hide Guards;
    forall i | 0 <= i < |s| ensures Guards(s)[i] == old(Guards(s))[i] {
      assert s[i] in s;
    }
  }

  lemma NewestIsLast(s: seq<Block>)
    requires Distinct(s) && s != []
    ensures s[|s| - 1] in s
    ensures Without(s, |s| - 1) == s[..|s| - 1]
    ensures forall b <- s[..|s| - 1] :: b in s && b != s[|s| - 1]
  {
  }

  predicate AllSet(g: seq<bool>) {
    forall i :: 0 <= i < |g| ==> g[i]
  }

  ghost predicate Intact(s: seq<Block>)
    reads s`deadbeef
  {
    AllSet(Guards(s))
  }

  /**
   * The collector, starting before blocks with the guards g, has come down to left of them within a number of rounds.
   */
  predicate CameDown(g: seq<bool>, left: nat, rounds: nat) {
    && left <= |g| && AllSet(g[left..])
    && |g| - left <= rounds
    && (|g| - left < rounds ==> left > 0 && !g[left - 1])
  }

  /** One more round: past an intact block, or stuck at a broken one. */
  lemma ComesDown(g: seq<bool>, left: nat, rounds: nat)
    requires CameDown(g, left, rounds) && left > 0
    ensures CameDown(g, if g[left - 1] then left - 1 else left, rounds + 1)
  {
  }

  lemma LastSet(g: seq<bool>)
    requires AllSet(g) && g != []
    ensures g[|g| - 1] && AllSet(g[..|g| - 1])
  {
  }

  lemma EndIff(g: seq<bool>, left: nat, rounds: nat, limit: nat)
    requires CameDown(g, left, rounds) && rounds <= limit && (left == 0 || rounds == limit)
    ensures left == 0 <==> AllSet(g) && |g| <= limit
    ensures left == 0 ==> rounds == |g|
  {
    if AllSet(g) && left > 0 {
      assert |g| - left == rounds;
    }
    if left == 0 {
      assert g[0..] == g;
    }
  }

  ghost function Reversed(s: seq<Block>): seq<Block> {
    if s == [] then [] else [s[|s| - 1]] + Reversed(s[..|s| - 1])
  }

  /** Hanging a new block behind the last one extends the list. */
  twostate lemma ChainedAppend(s: seq<Block>, new b: Block)
    requires old(Chained(s)) && b !in s
    requires b.prev == Last(s) && b.next == null
    requires s != [] ==> s[|s| - 1].next == b
    requires forall x <- s :: x.prev == old(x.prev)
    requires forall x <- s :: x != Last(s) ==> x.next == old(x.next)
    ensures Chained(s + [b])
  {
    var t := s + [b];
    forall i {:trigger t[i].prev} | 0 <= i < |t| ensures t[i].prev == Before(t, i) {
      if i < |s| {
        assert s[i].prev == old(s[i].prev);
      }
    }
    forall i {:trigger t[i].next} | 0 <= i < |t| ensures t[i].next == Behind(t, i) {
      if i < |s| - 1 {
        assert s[i].next == old(s[i].next);
      }
    }
  }

  /** Unlinking the block at k joins its neighbours. */
  twostate lemma ChainedRemove(s: seq<Block>, new k: int)
    requires old(Chained(s)) && 0 <= k < |s|
    requires k + 1 < |s| ==> s[k + 1].prev == Before(s, k)
    requires k > 0 ==> s[k - 1].next == Behind(s, k)
    requires forall x <- s :: x != Behind(s, k) ==> x.prev == old(x.prev)
    requires forall x <- s :: x != Before(s, k) ==> x.next == old(x.next)
    ensures Chained(Without(s, k))
  {
    var t := Without(s, k);
    forall i {:trigger t[i].prev} | 0 <= i < |t| ensures t[i].prev == Before(t, i) {
      var j := if i < k then i else i + 1;
      assert old(s[j].prev) == Before(s, j);
    }
    forall i {:trigger t[i].next} | 0 <= i < |t| ensures t[i].next == Behind(t, i) {
      var j := if i < k then i else i + 1;
      assert old(s[j].next) == Behind(s, j);
    }
  }

  twostate lemma EventChainedAppend(s: seq<Block>, new b: Block)
    requires old(EventChained(s)) && b !in s
    requires b.mprev == Last(s) && b.mnext == null
    requires s != [] ==> s[|s| - 1].mnext == b
    requires forall x <- s :: x.mprev == old(x.mprev)
    requires forall x <- s :: x != Last(s) ==> x.mnext == old(x.mnext)
    ensures EventChained(s + [b])
  {
    var t := s + [b];
    forall i {:trigger t[i].mprev} | 0 <= i < |t| ensures t[i].mprev == Before(t, i) {
      if i < |s| {
        assert s[i].mprev == old(s[i].mprev);
      }
    }
    forall i {:trigger t[i].mnext} | 0 <= i < |t| ensures t[i].mnext == Behind(t, i) {
      if i < |s| - 1 {
        assert s[i].mnext == old(s[i].mnext);
      }
    }
  }

  twostate lemma EventChainedRemove(s: seq<Block>, new k: int)
    requires old(EventChained(s)) && 0 <= k < |s|
    requires k + 1 < |s| ==> s[k + 1].mprev == Before(s, k)
    requires k > 0 ==> s[k - 1].mnext == Behind(s, k)
    requires forall x <- s :: x != Behind(s, k) ==> x.mprev == old(x.mprev)
    requires forall x <- s :: x != Before(s, k) ==> x.mnext == old(x.mnext)
    ensures EventChained(Without(s, k))
  {
    var t := Without(s, k);
    forall i {:trigger t[i].mprev} | 0 <= i < |t| ensures t[i].mprev == Before(t, i) {
      var j := if i < k then i else i + 1;
      assert old(s[j].mprev) == Before(s, j);
    }
    forall i {:trigger t[i].mnext} | 0 <= i < |t| ensures t[i].mnext == Behind(t, i) {
      var j := if i < k then i else i + 1;
      assert old(s[j].mnext) == Behind(s, j);
    }
  }

  class Heap {
    var lastAlloc: Block?
    var alccnt: int
    var mlist: Block?
    var memmut: LockState

    ghost var live: seq<Block>    // allocated and not yet released, oldest first
    ghost var events: seq<Block>  // the list that mlist heads, oldest first
    ghost var freed: seq<Block>   // everything handed to free(), in order

    ghost predicate AllocsValid()
      reads this`lastAlloc, this`alccnt, this`live
      reads live`prev, live`next, live`size, live`data
    {
      && Chained(live)
      && lastAlloc == Last(live)
      && alccnt == |live|
      && (forall b <- live :: |b.data| == b.size)
    }

    /** memmut exists exactly while something is allocated, and nobody holds it between calls. */
    ghost predicate LockIdle()
      reads this
    {
      memmut == if lastAlloc == null then Destroyed else Unlocked
    }

    ghost predicate EventsValid()
      reads this`mlist, this`live, this`events, live`kind, events`mprev, events`mnext
    {
      && EventChained(events)
      && mlist == Last(events)
      && (forall b <- live :: b.kind == Event <==> b in events)
      && (forall b <- events :: b in live)
    }

    /** Nothing is freed twice, and nothing freed is still on the list. */
    ghost predicate FreedOnce()
      reads this`freed, this`live
    {
      Distinct(freed) && forall b <- freed :: b !in live
    }

    /**
     * Both lists are exactly what the heap owes: all live blocks, and all live events. Their headers may have been
     * overwritten by whoever uses the blocks.
     */
    ghost predicate Valid()
      reads this, live, events
    {
      AllocsValid() && EventsValid() && LockIdle() && FreedOnce()
    }

    constructor ()
      ensures Valid() && live == [] && events == [] && freed == []
    {
      lastAlloc, alccnt, mlist, memmut := null, 0, null, Destroyed;
      live, events, freed := [], [], [];
    }

    /** mreq_private. mallocOk says whether the C library had memory. */
    method MreqPrivate(size: nat, toZero: bool, kind: AreaType, garbage: seq<bv8>, mallocOk: bool) returns (b: Block?)
      requires AllocsValid() && LockIdle() && |garbage| == size
      modifies this`lastAlloc, this`alccnt, this`memmut, this`live, live`next
      ensures AllocsValid() && LockIdle()
      ensures !mallocOk ==> b == null && live == old(live) && lastAlloc == old(lastAlloc)
      ensures mallocOk ==> b != null && fresh(b) && live == old(live) + [b]
      ensures mallocOk ==> b.kind == kind && b.size == size && b.mprev == null && b.mnext == null && b.deadbeef == DEADBEEF
      ensures mallocOk ==> b.data == if toZero then seq(size, i => 0) else garbage
    {
      hide Chained;
      if !mallocOk {
        return null;
      }
      var header := new Block(size, kind, if toZero then seq(size, i => 0) else garbage);
      if lastAlloc == null {
        memmut := Unlocked;
        memmut := Locked;
      } else {
        memmut := Locked;
        lastAlloc.next := header;
      }
      header.prev := lastAlloc;
      lastAlloc := header;
      alccnt := alccnt + 1;
      memmut := Unlocked;
      live := live + [header];
      ChainedAppend(old(live), header);
      b := header;
    }

    /** destroy_event: find the block on the second list and unlink it. */
    method DestroyEvent(event: Block)
      requires EventChained(events) && mlist == Last(events)
      modifies this`mlist, this`events, events`mprev, events`mnext
      ensures EventChained(events) && mlist == Last(events)
      ensures events == Minus(old(events), event)
      ensures forall x :: x in events <==> x in old(events) && x != event
    {
      MinusMembers(events, event);
      var pp := mlist;
      ghost var k := |events| - 1;
      while pp != null
        invariant -1 <= k < |events|
        invariant pp == if k < 0 then null else events[k]
        invariant event !in events[k + 1..]
        decreases k
      {
        if pp == event {
          UnlinkEvent(pp, k);
          MinusIsWithout(old(events), k);
          return;
        }
        pp := pp.mprev;
        k := k - 1;
      }
      MinusAbsent(events, event);
    }

    method UnlinkEvent(pp: Block, ghost k: int)
      requires EventChained(events) && mlist == Last(events)
      requires 0 <= k < |events| && events[k] == pp
      modifies this`mlist, this`events, events`mprev, events`mnext
      ensures EventChained(events) && mlist == Last(events)
      ensures events == Without(old(events), k)
    {
      var before, behind := pp.mprev, pp.mnext;
      if behind != null {
        behind.mprev := before;
      }
      if before != null {
        before.mnext := behind;
      }
      if mlist == pp {
        mlist := before;
      }
      events := Without(events, k);
      EventChainedRemove(old(events), k);
    }

    /** Whether my_release gets past its two guards. */
    ghost predicate Releasable(memory: Block?)
      reads memory
    {
      memory != null && memory.deadbeef == DEADBEEF
    }

    /** my_release: 0 in every case, also when the header is corrupted and nothing was done. */
    method MyRelease(memory: Block?) returns (r: int)
      requires Valid()
      requires Releasable(memory) ==> memory in live
      modifies this, live`prev, live`next, live`deadbeef, events`mprev, events`mnext
      ensures Valid() && r == 0
      ensures !old(Releasable(memory)) ==> live == old(live) && events == old(events) && freed == old(freed)
      ensures !old(Releasable(memory)) ==> lastAlloc == old(lastAlloc) && alccnt == old(alccnt) && mlist == old(mlist)
      ensures forall b <- old(live) :: b.deadbeef == old(b.deadbeef) || (b == memory && old(Releasable(memory)))
      ensures old(Releasable(memory)) ==>
        && live == Minus(old(live), memory) && events == Minus(old(events), memory)
        && freed == old(freed) + [memory] && memory.deadbeef == 0
    {
      hide AllocsValid, EventsValid, FreedOnce;
      r := 0;
      if memory == null || memory.deadbeef != DEADBEEF {
        return;
      }
      ReleaseLive(memory);
    }

    method ReleaseLive(memory: Block)
      requires Valid() && memory in live
      modifies this, live`prev, live`next, live`deadbeef, events`mprev, events`mnext
      ensures Valid()
      ensures live == Minus(old(live), memory) && events == Minus(old(events), memory)
      ensures freed == old(freed) + [memory] && memory.deadbeef == 0
      ensures forall b <- old(live) :: b != memory ==> b.deadbeef == old(b.deadbeef)
    {
      assert Distinct(freed) && forall x <- freed :: x !in live;
      hide AllocsValid, EventsValid, FreedOnce, Distinct;
      memmut := Locked;
      TakeOff(memory);
      memmut := if lastAlloc != null then Unlocked else Destroyed;
      freed := freed + [memory];
      StillFreedOnce(old(freed), old(live), memory);
    }

    /** The two lists without the block. */
    method TakeOff(memory: Block)
      requires AllocsValid() && EventsValid() && memory in live
      modifies this`lastAlloc, this`alccnt, this`live, this`mlist, this`events
      modifies live`prev, live`next, live`deadbeef, events`mprev, events`mnext
      ensures AllocsValid() && EventsValid() && memory.deadbeef == 0
      ensures live == Minus(old(live), memory) && events == Minus(old(events), memory)
      ensures forall b <- live :: b in old(live) && b != memory
      ensures forall b <- old(live) :: b != memory ==> b.deadbeef == old(b.deadbeef)
    {
      hide AllocsValid, EventChained, Chained;
      DestroyContents(memory);
      RemoveHeader(memory);
      forall b <- live
        ensures b.kind == Event <==> b in events
      {
        assert b in old(live) && b != memory;
      }
    }

    /** Moving a live block over to the freed ones. */
    lemma StillFreedOnce(f: seq<Block>, l: seq<Block>, b: Block)
      requires Distinct(f) && (forall x <- f :: x !in l) && b in l
      requires freed == f + [b] && forall x <- live :: x in l && x != b
      ensures FreedOnce()
    {
      DistinctAppend(f, b);
    }

    method RemoveHeader(header: Block)
      requires AllocsValid() && header in live
      modifies this`lastAlloc, this`alccnt, this`live, live`prev, live`next, header`deadbeef
      ensures AllocsValid() && header.deadbeef == 0
      ensures live == Minus(old(live), header)
      ensures forall x :: x in live <==> x in old(live) && x != header
    {
      hide Chained;
      header.deadbeef := 0;
      Unlink(header);
      alccnt := alccnt - 1;
    }

    /** The switch of my_release: only an event is on a list of its own. */
    method DestroyContents(memory: Block)
      requires EventsValid() && memory in live
      modifies this`mlist, this`events, events`mprev, events`mnext
      ensures EventChained(events) && mlist == Last(events)
      ensures events == Minus(old(events), memory)
      ensures forall x :: x in events <==> x in old(events) && x != memory
    {
      hide EventChained, Last;
      if memory.kind == Event {
        DestroyEvent(memory);
      } else {
        MinusAbsent(events, memory);
      }
    }

    method Unlink(header: Block)
      requires Chained(live) && lastAlloc == Last(live) && header in live
      modifies this`lastAlloc, this`live, live`prev, live`next
      ensures Chained(live) && lastAlloc == Last(live)
      ensures live == Minus(old(live), header) && |live| == |old(live)| - 1
      ensures forall x :: x in live <==> x in old(live) && x != header
    {
      ghost var k :| 0 <= k < |live| && live[k] == header;
      MinusIsWithout(live, k);
      MinusMembers(live, header);
      UnlinkAt(header, k);
    }

    method UnlinkAt(header: Block, ghost k: int)
      requires Chained(live) && lastAlloc == Last(live)
      requires 0 <= k < |live| && live[k] == header
      modifies this`lastAlloc, this`live, live`prev, live`next
      ensures Chained(live) && lastAlloc == Last(live)
      ensures live == Without(old(live), k)
    {
      var prevmem, nextmem := header.prev, header.next;
      if prevmem != null {
        prevmem.next := nextmem;
      }
      if nextmem != null {
        nextmem.prev := prevmem;
      }
      if header == lastAlloc {
        lastAlloc := prevmem;
      }
      live := Without(live, k);
      ChainedRemove(old(live), k);
    }

    /** Any allocation but that of an event leaves the second list alone. */
    method MreqPlain(size: nat, toZero: bool, kind: AreaType, garbage: seq<bv8>, mallocOk: bool) returns (b: Block?)
      requires Valid() && |garbage| == size && kind != Event
      modifies this`lastAlloc, this`alccnt, this`memmut, this`live, live`next
      ensures Valid() && events == old(events) && freed == old(freed)
      ensures !mallocOk ==> b == null && live == old(live)
      ensures mallocOk ==> b != null && fresh(b) && live == old(live) + [b]
      ensures mallocOk ==> b.kind == kind && b.size == size && b.data == if toZero then seq(size, i => 0) else garbage
    {
      hide Chained, EventChained, Last;
      b := MreqPrivate(size, toZero, kind, garbage, mallocOk);
    }

    /** my_mreq. */
    method MyMreq(size: nat, toZero: bool, garbage: seq<bv8>, mallocOk: bool) returns (b: Block?)
      requires Valid() && |garbage| == size
      modifies this`lastAlloc, this`alccnt, this`memmut, this`live, live`next
      ensures Valid() && events == old(events) && freed == old(freed)
      ensures !mallocOk ==> b == null && live == old(live)
      ensures mallocOk ==> b != null && fresh(b) && live == old(live) + [b]
      ensures mallocOk ==> b.size == size && b.data == if toZero then seq(size, i => 0) else garbage
    {
      b := MreqPlain(size, toZero, Client, garbage, mallocOk);
    }

    method CreateEventBlock(garbage: seq<bv8>) returns (e: Block)
      requires Valid()
      modifies this`lastAlloc, this`alccnt, this`memmut, this`live, this`mlist, this`events, live`next, events`mnext
      ensures Valid() && freed == old(freed)
      ensures fresh(e) && e.kind == Event
      ensures live == old(live) + [e] && events == old(events) + [e]
    {
      hide Chained, EventChained, Last;
      var b := MreqPrivate(|garbage|, false, Event, garbage, true);
      e := b;
      LinkEvent(e);
    }

    /** CreateEventA and CreateSemaphoreA: a mutex, a condition variable, and the event that owns them. */
    method CreateSync(pmBytes: seq<bv8>, pcBytes: seq<bv8>, eventBytes: seq<bv8>) returns (pm: Block, pc: Block, e: Block)
      requires Valid()
      modifies this`lastAlloc, this`alccnt, this`memmut, this`live, this`mlist, this`events, live`next, events`mnext
      ensures Valid() && freed == old(freed)
      ensures fresh(pm) && fresh(pc) && fresh(e)
      ensures pm.kind == MutexArea && pc.kind == Cond && e.kind == Event
      ensures live == old(live) + [pm, pc, e]
      ensures events == old(events) + [e]
    {
      hide AllocsValid, EventsValid;
      pm := MreqPlain(|pmBytes|, false, MutexArea, pmBytes, true);
      pc := MreqPlain(|pcBytes|, false, Cond, pcBytes, true);
      e := CreateEventBlock(eventBytes);
    }

    method LinkEvent(e: Block)
      requires EventChained(events) && mlist == Last(events)
      requires e !in events && e.mprev == null && e.mnext == null
      modifies this`mlist, this`events, events`mnext, e`mprev
      ensures EventChained(events) && mlist == Last(events)
      ensures events == old(events) + [e]
    {
      if mlist != null {
        mlist.mnext := e;
        e.mprev := mlist;
      }
      mlist := e;
      events := events + [e];
      EventChainedAppend(old(events), e);
    }

    /** my_realloc: a block only moves to grow, and then keeps its bytes. */
    method MyRealloc(memory: Block?, size: nat, garbage: seq<bv8>, mallocOk: bool) returns (ans: Block?)
      requires Valid() && |garbage| == size
      requires memory != null ==> memory in live && (memory.size < size ==> mallocOk)
      modifies this, live`prev, live`next, live`deadbeef, events`mprev, events`mnext
      ensures Valid()
      ensures memory == null && !mallocOk ==> ans == null && live == old(live) && freed == old(freed)
      ensures memory == null && mallocOk ==>
        ans != null && fresh(ans) && ans.size == size && live == old(live) + [ans] && freed == old(freed)
      ensures memory != null && size <= old(memory.size) ==>
        ans == memory && live == old(live) && events == old(events) && freed == old(freed)
      ensures memory != null && old(memory.size) < size ==>
        && ans != null && fresh(ans) && ans.size == size
        && ans.data == old(memory.data) + garbage[old(memory.size)..]
        && if old(memory.deadbeef) == DEADBEEF then
             && live == Minus(old(live) + [ans], memory) && events == Minus(old(events), memory)
             && freed == old(freed) + [memory]
           else
             live == old(live) + [ans] && events == old(events) && freed == old(freed)
    {
      hide Chained, EventChained, FreedOnce, Minus;
      if memory == null {
        ans := MyMreq(size, false, garbage, mallocOk);
      } else if memory.size < size {
        var osize := memory.size;
        ans := MyMreq(size, false, garbage, mallocOk);
        ans.data := memory.data + ans.data[osize..];
        var _ := MyRelease(memory);
      } else {
        ans := memory;
      }
    }

    /** Memory is trashed: a block's user overwrites its header's guard word. */
    method TrashHeader(memory: Block, garbage: int)
      requires Valid() && memory in live
      modifies memory`deadbeef
      ensures Valid() && live == old(live) && memory.deadbeef == garbage
    {
      hide Chained, EventChained, Distinct;
      memory.deadbeef := garbage;
    }

    /**
     * One round of my_garbagecollection. A newest block with a broken header stays, and the failure count does not
     * notice, because my_release answers 0 all the same.
     */
    method CollectRound(maxFatal: int) returns (size: nat, fatal: int, stop: bool)
      requires Valid() && live != []
      modifies this, live`prev, live`next, live`deadbeef, events`mprev, events`mnext
      ensures Valid() && fatal == maxFatal && !stop
      ensures size == old(live)[|old(live)| - 1].size
      ensures live <= old(live) && Guards(live) == old(Guards(live))[..|live|]
      ensures forall i :: 0 <= i < |events| ==> events[i] in old(events)
      ensures if old(Guards(live))[|old(live)| - 1] then
                live == old(live)[..|old(live)| - 1] && freed == old(freed) + [old(live)[|old(live)| - 1]]
              else
                live == old(live) && freed == old(freed)
    {
      hide EventsValid, EventChained, Chained, FreedOnce, AllocsValid, LockIdle, Guards, Minus;
      fatal, stop := maxFatal, false;
      GuardsOfPrefix(live, |live| - 1);
      var r: int;
      size, r := ReleaseNewest();
      if r != 0 {
        fatal := fatal - 1;
        stop := fatal < 0;
      }
      GuardsKept(live);
    }

    method ReleaseNewest() returns (size: nat, r: int)
      requires Valid() && live != []
      modifies this, live`prev, live`next, live`deadbeef, events`mprev, events`mnext
      ensures Valid() && r == 0
      ensures size == old(live)[|old(live)| - 1].size
      ensures forall b <- live :: b in old(live) && b.deadbeef == old(b.deadbeef)
      ensures forall i :: 0 <= i < |events| ==> events[i] in old(events)
      ensures if old(live[|live| - 1].deadbeef) == DEADBEEF then
                live == old(live)[..|old(live)| - 1] && freed == old(freed) + [old(live)[|old(live)| - 1]]
              else
                live == old(live) && freed == old(freed)
    {
      Distinctness();
      Newest();
      hide EventsValid, EventChained, Chained, FreedOnce, AllocsValid, LockIdle;
      var mem := lastAlloc;
      size := mem.size;
      MinusIsWithout(live, |live| - 1);
      MinusSubset(events, mem);
      NewestIsLast(live);
      r := MyRelease(mem);
    }

    lemma Newest()
      requires AllocsValid() && live != []
      ensures lastAlloc == live[|live| - 1]
    {
    }

    lemma Distinctness()
      requires AllocsValid()
      ensures Distinct(live)
    {
    }

    /**
     * my_garbagecollection, when no header has been overwritten: it releases from the newest block down to the last.
     */
    method GarbageCollect() returns (unfree: nat, unfreecnt: nat)
      requires Valid() && Intact(live)
      modifies this, live`prev, live`next, live`deadbeef, events`mprev, events`mnext
      ensures Valid() && live == [] && events == []
      ensures lastAlloc == null && mlist == null && alccnt == 0 && memmut == Destroyed
      ensures freed == old(freed) + Reversed(old(live))
      ensures unfreecnt == |old(live)| && unfree == TotalSize(old(live))
    {
      hide AllocsValid, EventsValid, LockIdle, FreedOnce, AllSet, Guards, Reversed, TotalSize;
      unfree, unfreecnt := 0, 0;
      var maxFatal, stop := MAX_FATAL, false;
      AnyLeft();
      while lastAlloc != null
        invariant Valid() && Intact(live) && !stop
        invariant (lastAlloc == null) == (live == [])
        invariant forall i :: 0 <= i < |live| ==> live[i] in old(live)
        invariant forall i :: 0 <= i < |events| ==> events[i] in old(events)
        invariant freed + Reversed(live) == old(freed) + Reversed(old(live))
        invariant unfreecnt + |live| == |old(live)|
        invariant unfree + TotalSize(live) == TotalSize(old(live))
        decreases |live|
      {
        LastSet(Guards(live));
        LastOfMany(live, freed);
        var size: nat;
        size, maxFatal, stop := CollectRound(maxFatal);
        unfree := unfree + size;
        unfreecnt := unfreecnt + 1;
        AnyLeft();
        if stop {
          break;
        }
      }
      NothingLeft();
      NoneOfMany(freed);
    }

    /**
     * The same loop on any heap, watched for a number of rounds. It has come to its end exactly when no header was
     * overwritten and there were enough rounds; otherwise it stands before the newest broken block, for good.
     */
    method CollectFor(rounds: nat) returns (unfreecnt: nat, ended: bool)
      requires Valid()
      modifies this, live`prev, live`next, live`deadbeef, events`mprev, events`mnext
      ensures Valid() && ended == (live == [])
      ensures ended <==> old(Intact(live)) && |old(live)| <= rounds
      ensures CameDown(old(Guards(live)), |live|, unfreecnt)
      ensures live <= old(live) && freed == old(freed) + Reversed(old(live)[|live|..])
      ensures unfreecnt == if ended then |old(live)| else rounds
    {
      hide AllocsValid, EventsValid, LockIdle, FreedOnce, CameDown, AllSet, Guards, Reversed;
      ghost var all, guards := live, Guards(live);
      unfreecnt := 0;
      var maxFatal, stop := MAX_FATAL, false;
      AnyLeft();
      StartsUp(all, guards);
      while lastAlloc != null && unfreecnt < rounds
        invariant Valid() && !stop
        invariant (lastAlloc == null) == (live == [])
        invariant |live| <= |all| && live == all[..|live|] && Guards(live) == guards[..|live|]
        invariant forall i :: 0 <= i < |events| ==> events[i] in old(events)
        invariant freed == old(freed) + Reversed(all[|live|..])
        invariant unfreecnt <= rounds && CameDown(guards, |live|, unfreecnt)
        decreases rounds - unfreecnt
      {
        ghost var before := |live|;
        ComesDown(guards, before, unfreecnt);
        ReversedGrows(all, before);
        var size: nat;
        size, maxFatal, stop := CollectRound(maxFatal);
        unfreecnt := unfreecnt + 1;
        AnyLeft();
        if stop {
          break;
        }
      }
      EndIff(guards, |live|, unfreecnt, rounds);
      ended := lastAlloc == null;
    }

    lemma StartsUp(all: seq<Block>, guards: seq<bool>)
      requires guards == Guards(all)
      ensures CameDown(guards, |all|, 0) && all[..|all|] == all && guards[..|all|] == guards && Reversed(all[|all|..]) == []
      ensures freed + Reversed(all[|all|..]) == freed
    {
    }

    lemma ReversedGrows(all: seq<Block>, n: nat)
      requires 0 < n <= |all|
      ensures Reversed(all[n - 1..]) == Reversed(all[n..]) + [all[n - 1]]
      decreases |all|
    {
      if n < |all| {
        ReversedGrows(all[..|all| - 1], n);
        assert all[n - 1..][..|all| - n] == all[..|all| - 1][n - 1..];
        assert all[n..][..|all| - n - 1] == all[..|all| - 1][n..];
      }
    }

    lemma AnyLeft()
      requires Valid()
      ensures (lastAlloc == null) == (live == [])
    {
    }

    lemma NothingLeft()
      requires Valid() && live == []
      ensures events == [] && mlist == null && alccnt == 0 && memmut == Destroyed
    {
      if events != [] {
        SomethingLeft();
      }
    }

    lemma SomethingLeft()
      requires Valid() && events != []
      ensures live != []
    {
      assert events[0] in live;
    }
  }

  lemma {:induction false} MinusSubset(s: seq<Block>, b: Block)
    ensures forall x :: x in Minus(s, b) ==> x in s
  {
    if s != [] {
      MinusSubset(s[1..], b);
    }
  }

  lemma LastOfMany(s: seq<Block>, f: seq<Block>)
    requires s != []
    ensures var n := |s| - 1;
            && TotalSize(s) == TotalSize(s[..n]) + s[n].size
            && f + Reversed(s) == f + [s[n]] + Reversed(s[..n])
  {
    ReversedLast(s);
    hide Reversed;
    Regroup(f, [s[|s| - 1]], Reversed(s[..|s| - 1]));
  }

  lemma ReversedLast(s: seq<Block>)
    requires s != []
    ensures Reversed(s) == [s[|s| - 1]] + Reversed(s[..|s| - 1])
  {
  }

  lemma Regroup(a: seq<Block>, b: seq<Block>, c: seq<Block>)
    ensures a + (b + c) == a + b + c
  {
  }

  lemma NoneOfMany(f: seq<Block>)
    ensures TotalSize([]) == 0 && f + Reversed([]) == f
  {
  }

  ghost function TotalSize(s: seq<Block>): nat
    reads s`size
  {
    if s == [] then 0 else TotalSize(s[..|s| - 1]) + s[|s| - 1].size
  }
}
