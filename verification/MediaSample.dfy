// CMediaSample of loader/dshow/cmediasample.c: a buffer that grows through the
// page allocator and may be redirected to memory of the caller.
module MediaSample {
  import opened MachineWords
  import opened PageArena
  import R = PageRuns

  /** Room every buffer has beyond its nominal size, for codecs that write past the end. */
  const SAFETY_ACEL := 1024

  /** A sample and the memory it lives in. external is the pointer last given to SetPointer, 0 if there is none. */
  datatype Sample = Sample(
    mem: Mem,
    size: int,
    actualSize: int,
    ownBlock: nat,
    block: nat,
    external: nat)

  /** The sample's own block is live or NULL, and the block in use is that one or the caller's. */
  ghost predicate Inv(s: Sample) {
    && Valid(s.mem)
    && 0 <= s.size && s.actualSize <= s.size
    && (s.ownBlock != 0 ==> Live(s.mem, s.ownBlock))
    && (s.block == s.ownBlock || s.block == s.external)
  }

  /** The sample's own block, if there is one, has room for the declared size and the safety margin. */
  ghost predicate Roomy(s: Sample)
    requires Inv(s)
  {
    s.ownBlock != 0 ==> Extent(s.mem, s.ownBlock) >= s.size + SAFETY_ACEL
  }

  /** What can happen to a sample; Other is any call another owner of memory makes. */
  datatype Event =
    | SetActualDataLength(length: int, answer: nat)
    | SetPointer(p: nat)
    | ResetPointer
    | Other(c: R.Call)

  predicate Touches(c: R.Call, p: nat) {
    c.SetMemstruct? || ((c.Realloc? || c.Free?) && c.p == p)
  }

  ghost predicate Allowed(s: Sample, e: Event)
    requires Inv(s)
  {
    match e
    case SetActualDataLength(length, answer) =>
      length > s.size ==> ReallocAnswer(s.mem, answer, length + SAFETY_ACEL, s.ownBlock)
    case Other(c) => R.Allowed(s.mem, c) && (s.ownBlock != 0 ==> !Touches(c, s.ownBlock))
    case _ => true
  }

  ghost function Grown(s: Sample, length: int, answer: nat): Sample
    requires Inv(s) && length > s.size
  {
    var (mem, own) := AfterRealloc(s.mem, s.ownBlock, length + SAFETY_ACEL, answer);
    Sample(mem, length, length, own, if s.ownBlock == s.block then own else s.block, s.external)
  }

  ghost function After(s: Sample, e: Event): Sample
    requires Inv(s)
  {
    match e
    case SetActualDataLength(length, answer) =>
      if length > s.size then Grown(s, length, answer) else s.(actualSize := length)
    case SetPointer(p) => s.(block := if p != 0 then p else s.ownBlock, external := p)
    case ResetPointer => s.(block := s.ownBlock)
    case Other(c) => s.(mem := R.After(s.mem, c))
  }

  /** MALLOC answers NULL or a live block of at least the size asked for. */
  lemma MallocDelivers(m: Mem, n: nat, answer: nat)
    requires Valid(m) && HeapAnswer(m, answer, n, 0)
    ensures var (m', r) := AfterMalloc(m, n, answer);
            Valid(m') && (r != 0 ==> Live(m', r) && Extent(m', r) >= n)
  {
    hide HeapApart, HeapAnswer;
    R.ValidKept(m, R.Malloc(n, answer));
    var (m', r) := AfterMalloc(m, n, answer);
    var i := LowestAvailable(m, 0);
    if i < m.pagecount && n <= m.pagesize {
      assert PageBlock(m', r, i);
      PageOrHeap(m', r);
    }
  }

  lemma OthersKeepHeapBlock(m: Mem, c: R.Call, p: nat)
    requires Valid(m) && p in m.heap && R.Allowed(m, c) && !Touches(c, p)
    ensures p in R.After(m, c).heap && R.After(m, c).heap[p] == m.heap[p]
  {
    hide Address, HeapApart;
  }

  lemma OthersKeepPage(m: Mem, c: R.Call, p: nat, k: nat)
    requires Valid(m) && PageBlock(m, p, k) && R.Allowed(m, c) && !Touches(c, p)
    ensures Shaped(R.After(m, c)) && PageBlock(R.After(m, c), p, k) && R.After(m, c).pagesize == m.pagesize
  {
    hide Address, HeapApart, HeapAnswer;
    R.ValidKept(m, c);
  }

  /** What other owners do leaves a live block where it is, and as big as it is. */
  lemma OthersKeepBlock(m: Mem, c: R.Call, p: nat)
    requires Valid(m) && Live(m, p) && R.Allowed(m, c) && !Touches(c, p)
    ensures Valid(R.After(m, c)) && Live(R.After(m, c), p) && Extent(R.After(m, c), p) == Extent(m, p)
  {
    R.ValidKept(m, c);
    PageOrHeap(m, p);
    if p in m.heap {
      OthersKeepHeapBlock(m, c, p);
    } else {
      OthersKeepPage(m, c, p, PageOf(m, p));
      hide Address, HeapApart, HeapAnswer, R.After;
      PageOrHeap(R.After(m, c), p);
    }
  }

  /** Growing by a request that fits a page while the own block is a smaller heap block right behind the arena. */
  predicate Misplaced(s: Sample, e: Event) {
    && e.SetActualDataLength? && e.length > s.size
    && s.ownBlock in s.mem.heap && s.ownBlock == ArenaEnd(s.mem)
    && s.mem.heap[s.ownBlock] < e.length + SAFETY_ACEL <= s.mem.pagesize
  }

  lemma GrowthKeeps(s: Sample, length: int, answer: nat)
    requires Inv(s) && Allowed(s, SetActualDataLength(length, answer)) && length > s.size
    ensures var s' := Grown(s, length, answer);
            Inv(s') && (Roomy(s') <==> !Misplaced(s, SetActualDataLength(length, answer)))
  {
    hide Valid, Live, Extent, AfterRealloc, HeapAnswer;
    R.ReallocTooSmallIff(s.mem, s.ownBlock, length + SAFETY_ACEL, answer);
    if Misplaced(s, SetActualDataLength(length, answer)) {
      R.ReallocKeepsMisplaced(s.mem, s.ownBlock, length + SAFETY_ACEL, answer);
    }
  }

  /** Every event keeps the invariant. */
  lemma InvKept(s: Sample, e: Event)
    requires Inv(s) && Allowed(s, e)
    ensures Inv(After(s, e))
  {
    hide Valid, Live, Extent, R.Allowed, R.After, HeapAnswer, Touches;
    match e
    case SetActualDataLength(length, answer) =>
      if length > s.size {
        GrowthKeeps(s, length, answer);
      }
    case Other(c) =>
      R.ValidKept(s.mem, c);
      if s.ownBlock != 0 {
        OthersKeepBlock(s.mem, c, s.ownBlock);
      }
    case _ =>
  }

  /** An event costs the sample its room exactly when it is a misplaced growth. */
  lemma RoomKeptIff(s: Sample, e: Event)
    requires Inv(s) && Allowed(s, e) && Roomy(s)
    ensures Inv(After(s, e)) && (Roomy(After(s, e)) <==> !Misplaced(s, e))
  {
    InvKept(s, e);
    hide Valid, Live, Extent, R.Allowed, R.After, HeapAnswer, Touches;
    match e
    case SetActualDataLength(length, answer) =>
      if length > s.size {
        GrowthKeeps(s, length, answer);
      }
    case Other(c) =>
      if s.ownBlock != 0 {
        OthersKeepBlock(s.mem, c, s.ownBlock);
      }
    case _ =>
  }

  ghost predicate Possible(s: Sample, run: seq<Event>)
    requires Inv(s)
    decreases |run|
  {
    run == [] || (Allowed(s, run[0]) && (InvKept(s, run[0]); Possible(After(s, run[0]), run[1..])))
  }

  ghost function Reached(s: Sample, run: seq<Event>): (r: Sample)
    requires Inv(s) && Possible(s, run)
    ensures Inv(r)
    decreases |run|
  {
    if run == [] then s
    else
      InvKept(s, run[0]);
      Reached(After(s, run[0]), run[1..])
  }

  ghost predicate NeverMisplaced(s: Sample, run: seq<Event>)
    requires Inv(s) && Possible(s, run)
    decreases |run|
  {
    run == [] || (!Misplaced(s, run[0]) && (InvKept(s, run[0]); NeverMisplaced(After(s, run[0]), run[1..])))
  }

  /**
   * Over any run of length changes, pointer redirections and calls of other owners, the data length stays within the
   * size, and the sample's own block, in a page or in the heap, is live or NULL; while no growth is misplaced, it has
   * size + 1024 bytes.
   */
  lemma {:induction false} CapacityAlways(s: Sample, run: seq<Event>)
    requires Inv(s) && Possible(s, run)
    ensures var r := Reached(s, run);
            && r.actualSize <= r.size
            && Valid(r.mem)
            && (r.ownBlock != 0 ==> Live(r.mem, r.ownBlock))
            && (r.block == r.ownBlock || r.block == r.external)
            && (Roomy(s) && NeverMisplaced(s, run) && r.ownBlock != 0 ==>
                  Extent(r.mem, r.ownBlock) >= r.size + SAFETY_ACEL)
    decreases |run|
  {
    hide Valid, Live, Extent, Allowed, After, Misplaced, Inv;
    if run != [] {
      InvKept(s, run[0]);
      if Roomy(s) {
        RoomKeptIff(s, run[0]);
      }
      hide Roomy;
      CapacityAlways(After(s, run[0]), run[1..]);
    }
    ReachedParts(s, run);
  }

  lemma ReachedParts(s: Sample, run: seq<Event>)
    requires Inv(s) && Possible(s, run)
    ensures Inv(Reached(s, run))
  {
  }

  /**
   * What each call does to the pointers: a length that fits moves nothing; a longer one replaces the own block, and the
   * block in use goes along only if it was that one. SetPointer redirects to the caller's memory, and NULL or
   * ResetPointer goes back to the own block.
   */
  lemma BlocksAfter(s: Sample, e: Event)
    requires Inv(s) && Allowed(s, e)
    ensures var s' := After(s, e);
            match e
            case SetActualDataLength(length, answer) =>
              && (length <= s.size ==> s'.mem == s.mem && s'.ownBlock == s.ownBlock && s'.block == s.block)
              && (length > s.size ==>
                    && (s'.ownBlock == s.ownBlock || s'.ownBlock == answer)
                    && s'.block == if s.block == s.ownBlock then s'.ownBlock else s.block)
            case SetPointer(p) => s'.mem == s.mem && s'.ownBlock == s.ownBlock && s'.block == if p == 0 then s.ownBlock else p
            case ResetPointer => s'.mem == s.mem && s'.ownBlock == s.ownBlock == s'.block
            case Other(_) => s'.ownBlock == s.ownBlock && s'.block == s.block
  {
    hide Valid, R.After, R.Allowed, HeapAnswer;
  }

  function LastLength(run: seq<Event>, former: int): int
    decreases |run|
  {
    if run == [] then former
    else LastLength(run[1..], if run[0].SetActualDataLength? then run[0].length else former)
  }

  function LargestLength(run: seq<Event>, former: int): int
    decreases |run|
  {
    if run == [] then former
    else LargestLength(run[1..], if run[0].SetActualDataLength? && run[0].length > former then run[0].length else former)
  }

  /** Over any run the data length is the last one set, and the size is the largest one, or what it was. */
  lemma {:induction false} LengthsAlways(s: Sample, run: seq<Event>)
    requires Inv(s) && Possible(s, run)
    ensures Reached(s, run).actualSize == LastLength(run, s.actualSize)
    ensures Reached(s, run).size == LargestLength(run, s.size)
    decreases |run|
  {
    if run != [] {
      InvKept(s, run[0]);
      LengthsStep(s, run[0]);
      hide Inv, Allowed, After;
      LengthsAlways(After(s, run[0]), run[1..]);
    }
  }

  lemma LengthsStep(s: Sample, e: Event)
    requires Inv(s)
    ensures After(s, e).actualSize == LastLength([e], s.actualSize)
    ensures After(s, e).size == LargestLength([e], s.size)
  {
    hide Inv, R.After, AfterRealloc;
  }

  /** A length change loses the buffer exactly when it needs more room and the C library answers NULL for it. */
  lemma BufferLostOnlyByNull(s: Sample, length: int, answer: nat)
    requires Inv(s) && s.ownBlock != 0 && Allowed(s, SetActualDataLength(length, answer))
    ensures After(s, SetActualDataLength(length, answer)).ownBlock == 0 <==>
            && length > s.size && answer == 0
            && !(!PassedOn(s.mem, s.ownBlock) && length + SAFETY_ACEL <= s.mem.pagesize)
  {
    PageOrHeap(s.mem, s.ownBlock);
    hide HeapApart, Address;
  }

  /**
   * A sample of 10 bytes whose block lies right behind an arena of one large page: growing it to 2000 keeps the block of
   * 1034.
   */
  lemma MisplacedExample()
    ensures var m := Mem(1, 5000, 1000, Blank<nat>(0), Blank<Byte>(0), map[6000 := 1034]);
            var s := Sample(m, 10, 0, 6000, 6000, 0);
            var e := SetActualDataLength(2000, 0);
            && Inv(s) && Allowed(s, e) && Roomy(s)
            && Inv(After(s, e)) && After(s, e).size == 2000 && Extent(After(s, e).mem, After(s, e).ownBlock) == 1034
  {
    var m := Mem(1, 5000, 1000, Blank<nat>(0), Blank<Byte>(0), map[6000 := 1034]);
    PageOrHeap(m, 6000);
  }

  class CMediaSample {
    const arena: Arena
    var size: int
    var actualSize: int
    var ownBlock: nat
    var block: nat
    ghost var external: nat

    ghost function State(): Sample
      reads this, arena, arena.used, arena.locked
    {
      Sample(arena.State(), size, actualSize, ownBlock, block, external)
    }

    ghost predicate Valid()
      reads this, arena, arena.used, arena.locked
    {
      arena.Consistent() && Inv(State())
    }

    /** The part of CMediaSampleCreate that runs once both allocations have succeeded. */
    constructor (arena: Arena, size: nat, ownBlock: nat)
      requires arena.Consistent() && ownBlock != 0
      requires Live(arena.State(), ownBlock) && Extent(arena.State(), ownBlock) >= size + SAFETY_ACEL
      ensures Valid() && Roomy(State()) && this.arena == arena
      ensures State() == Sample(arena.State(), size, 0, ownBlock, ownBlock, 0)
    {
      this.arena := arena;
      this.size := size;
      this.actualSize := 0;
      this.ownBlock := ownBlock;
      this.block := ownBlock;
      this.external := 0;
    }

    method SetActualDataLength(length: int, answer: nat) returns (r: int)
      requires Valid() && Allowed(State(), Event.SetActualDataLength(length, answer))
      modifies this, arena`heap, arena.used, arena.locked
      ensures Valid() && r == 0 && State() == After(old(State()), Event.SetActualDataLength(length, answer))
    {
      ghost var s := State();
      InvKept(s, Event.SetActualDataLength(length, answer));
      assert ownBlock == 0 || Live(s.mem, ownBlock);
      hide Inv, Live, HeapAnswer, AfterRealloc, PageArena.Valid;
      if length > size {
        var c := ownBlock;
        ownBlock := arena.Realloc(ownBlock, length + SAFETY_ACEL, answer);
        if c == block {
          block := ownBlock;
        }
        size := length;
      }
      actualSize := length;
      r := 0;
    }

    method SetPointer(pointer: nat)
      requires Valid()
      modifies this
      ensures Valid() && State() == After(old(State()), Event.SetPointer(pointer))
    {
      external := pointer;
      if pointer != 0 {
        block := pointer;
      } else {
        block := ownBlock;
      }
    }

    method ResetPointer()
      requires Valid()
      modifies this
      ensures Valid() && State() == After(old(State()), Event.ResetPointer)
    {
      block := ownBlock;
    }
  }

  /**
   * CMediaSampleCreate: NULL when there is no memory for the object, its table or its buffer, otherwise a sample with
   * room to spare. A buffer got in vain goes back through FREE.
   */
  method Create(arena: Arena, size: nat, objectOk: bool, tableOk: bool, answer: nat) returns (sample: CMediaSample?)
    requires arena.Consistent() && HeapAnswer(arena.State(), answer, size + SAFETY_ACEL, 0)
    modifies arena`heap, arena.used, arena.locked
    ensures arena.Consistent()
    ensures var (mem, own) := AfterMalloc(old(arena.State()), size + SAFETY_ACEL, answer);
            && (sample != null <==> objectOk && tableOk && own != 0)
            && (sample != null ==> arena.State() == mem && sample.ownBlock == own)
            && (sample == null && objectOk ==> arena.State() == AfterFree(mem, own))
            && (!objectOk ==> arena.State() == old(arena.State()))
    ensures sample != null ==> fresh(sample) && sample.arena == arena && sample.Valid() && Roomy(sample.State())
    ensures sample != null ==> sample.size == size && sample.actualSize == 0 && sample.block == sample.ownBlock != 0
  {
    sample := null;
    if objectOk {
      MallocDelivers(arena.State(), size + SAFETY_ACEL, answer);
      hide Valid, AfterMalloc, AfterFree, Live, Extent;
      var own := arena.Malloc(size + SAFETY_ACEL, answer);
      if !tableOk || own == 0 {
        arena.Free(own);
      } else {
        sample := new CMediaSample(arena, size, own);
      }
    }
  }
}
