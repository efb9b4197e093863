// What the page allocator keeps over whole runs of its entry points.
module PageRuns {
  import opened MachineWords
  import opened PageArena

  datatype Call =
    | Malloc(size: nat, answer: nat)
    | Realloc(p: nat, size: nat, answer: nat)
    | Free(p: nat)
    | SetLock(p: nat, value: Byte)
    | SetMemstruct(base: nat, count: nat, size: nat)

  /** The client passes only NULL or live blocks; the C heap and the server pass ranges clear of what is live. */
  ghost predicate Allowed(m: Mem, c: Call)
    requires Shaped(m)
  {
    match c
    case Malloc(size, answer) => HeapAnswer(m, answer, size, 0)
    case Realloc(p, size, answer) => size > 0 && (p == 0 || Live(m, p)) && ReallocAnswer(m, answer, size, p)
    case Free(p) => p == 0 || Live(m, p)
    case SetLock(_, _) => true
    case SetMemstruct(base, count, size) => Valid(AfterSetMemstruct(m, base, count, size))
  }

  ghost function After(m: Mem, c: Call): Mem
    requires Shaped(m)
  {
    match c
    case Malloc(size, answer) => AfterMalloc(m, size, answer).0
    case Realloc(p, size, answer) => AfterRealloc(m, p, size, answer).0
    case Free(p) => AfterFree(m, p)
    case SetLock(p, value) => AfterSetLock(m, p, value)
    case SetMemstruct(base, count, size) => AfterSetMemstruct(m, base, count, size)
  }

  /** Every call keeps the allocator's invariant. */
  lemma ValidKept(m: Mem, c: Call)
    requires Valid(m) && Allowed(m, c)
    ensures Valid(After(m, c))
  {
    hide Address, HeapApart, HeapAnswer;
    match c
    case Malloc(size, answer) =>
      HeapTaken(m, size, answer);
      var i := LowestAvailable(m, 0);
      if i < m.pagecount {
        PageTaken(m, i);
      }
    case Realloc(p, size, answer) =>
      PageOrHeap(m, p);
      if PassedOn(m, p) {
        HeapMoved(m, p, size, answer);
      } else {
        PageMoved(m, if OnPage(m, p) then PageOf(m, p) else m.pagecount, size, answer);
      }
    case Free(p) =>
      HeapDropped(m, p);
      EntryCleared(m, if OnPage(m, p) then PageOf(m, p) else m.pagecount);
    case SetLock(p, value) =>
      if k: nat :| InPage(m, p, k) && AfterSetLock(m, p, value) == LockFrom(m, k, value) {
        LocksKeepValid(m, LockFrom(m, k, value).locked);
      }
    case SetMemstruct(_, _, _) =>
  }

  ghost predicate Possible(m: Mem, run: seq<Call>)
    requires Valid(m)
    decreases |run|
  {
    run == [] || (Allowed(m, run[0]) && (ValidKept(m, run[0]); Possible(After(m, run[0]), run[1..])))
  }

  ghost function Reached(m: Mem, run: seq<Call>): (r: Mem)
    requires Valid(m) && Possible(m, run)
    ensures Valid(r)
    decreases |run|
  {
    if run == [] then m
    else
      ValidKept(m, run[0]);
      Reached(After(m, run[0]), run[1..])
  }

  /** Live blocks never overlap, and a page block lies inside the arena. */
  lemma LiveBlocksApart(m: Mem, p: nat, q: nat)
    requires Valid(m) && Live(m, p) && Live(m, q) && p != q
    ensures Apart(p, Extent(m, p), q, Extent(m, q))
    ensures p !in m.heap ==> m.base <= p && p + Extent(m, p) <= ArenaEnd(m)
  {
    hide Address;
    if p !in m.heap {
      var i := PageOf(m, p);
      BlockIsInItsPage(m, p, i);
      if q !in m.heap {
        var j := PageOf(m, q);
        PagesInOrder(m, i, if i < j then j else i);
        PagesInOrder(m, j, if j < i then i else j);
      }
    } else if q !in m.heap {
      BlockIsInItsPage(m, q, PageOf(m, q));
    }
  }

  /** After any run of calls from any valid memory, whatever is live is pairwise disjoint. */
  lemma LiveBlocksApartAlways(m: Mem, run: seq<Call>, p: nat, q: nat)
    requires Valid(m) && Possible(m, run)
    requires Live(Reached(m, run), p) && Live(Reached(m, run), q) && p != q
    ensures Apart(p, Extent(Reached(m, run), p), q, Extent(Reached(m, run), q))
  {
    LiveBlocksApart(Reached(m, run), p, q);
  }

  /**
   * MALLOC answers with a page exactly when one is free and unlocked and the size fits, and then with the lowest
   * such page.
   */
  lemma MallocPicksAvailablePage(m: Mem, size: nat, answer: nat)
    requires Valid(m) && HeapAnswer(m, answer, size, 0)
    ensures var p := AfterMalloc(m, size, answer).1;
            (exists k: nat :: InPage(m, p, k)) <==> size <= m.pagesize && exists k: nat :: Available(m, k)
    ensures forall k: nat :: InPage(m, AfterMalloc(m, size, answer).1, k) ==>
              Available(m, k) && (forall j: nat :: j < k ==> !Available(m, j))
  {
    hide Address, HeapApart;
    var i := LowestAvailable(m, 0);
    var p := AfterMalloc(m, size, answer).1;
    if i < m.pagecount && size <= m.pagesize {
      PagesInOrder(m, i, i + 1);
      assert InPage(m, p, i);
      forall k: nat | InPage(m, p, k) ensures k == i {
        PageIsUnique(m, p, i, k);
      }
    } else {
      forall k: nat ensures !InPage(m, p, k) {
        if InPage(m, p, k) {
          InPageInArena(m, p, k);
        }
      }
    }
  }

  /** m' is m with one more block p, of n bytes: every other block is live as before and as big, and no lock changed. */
  ghost predicate HandedOut(m: Mem, p: nat, n: nat, m': Mem)
    requires Shaped(m) && Shaped(m')
  {
    && !Live(m, p) && Live(m', p) && Extent(m', p) == n
    && (forall q: nat :: q != p ==> (Live(m', q) <==> Live(m, q)))
    && (forall q: nat :: q != p && Live(m, q) && Live(m', q) ==> Extent(m', q) == Extent(m, q))
    && m'.locked == m.locked
  }

  lemma PageHandedOut(m: Mem, i: nat)
    requires Valid(m) && Available(m, i)
    ensures Shaped(TakePage(m, i)) && PageStart(m, i) != 0
    ensures HandedOut(m, PageStart(m, i), m.pagesize, TakePage(m, i))
  {
    var p, m' := PageStart(m, i), TakePage(m, i);
    PageTaken(m, i);
    assert PageBlock(m', p, i);
    BlockIsInItsPage(m', p, i);
    hide Address, HeapApart;
    assert InPage(m, p, i);
    assert p !in m.heap by {
      InPageInArena(m, p, i);
      PageOrHeap(m, 0);
    }
    forall q: nat, j: nat | q != p ensures PageBlock(m', q, j) <==> PageBlock(m, q, j) {
    }
    forall j: nat ensures !PageBlock(m, p, j) {
      if PageBlock(m, p, j) {
        BlockIsInItsPage(m, p, j);
        PageIsUnique(m, p, i, j);
      }
    }
  }

  lemma HeapHandedOut(m: Mem, n: nat, answer: nat)
    requires Valid(m) && HeapAnswer(m, answer, n, 0) && answer != 0
    ensures Shaped(TakeHeap(m, n, answer)) && HandedOut(m, answer, n, TakeHeap(m, n, answer))
  {
    var m' := TakeHeap(m, n, answer);
    HeapTaken(m, n, answer);
    forall j: nat ensures !PageBlock(m, answer, j) {
      if PageBlock(m, answer, j) {
        BlockIsInItsPage(m, answer, j);
      }
    }
    hide Address, HeapApart, HeapAnswer;
    forall q: nat, j: nat ensures PageBlock(m', q, j) <==> PageBlock(m, q, j) {
    }
  }

  /**
   * What MALLOC does, for every size and every answer of the C library: with a page free, unlocked and large enough it
   * hands out a whole page; otherwise the caller gets exactly what the C library's malloc answered, and pages and locks
   * stay as they are. So it answers NULL exactly when it takes no page and the C library had no memory.
   */
  lemma MallocHandsOut(m: Mem, n: nat, answer: nat)
    requires Valid(m) && HeapAnswer(m, answer, n, 0)
    ensures var (m', p) := AfterMalloc(m, n, answer);
            var fits := n <= m.pagesize && exists k: nat :: Available(m, k);
            && Shaped(m')
            && (p == 0 <==> !fits && answer == 0)
            && (p == 0 ==> m' == m)
            && (!fits ==> p == answer && m'.used == m.used)
            && (p != 0 ==> HandedOut(m, p, if fits then m.pagesize else n, m'))
  {
    hide Address, HeapApart, HeapAnswer, HandedOut;
    var i := LowestAvailable(m, 0);
    if i < m.pagecount && n <= m.pagesize {
      PageHandedOut(m, i);
    } else if answer != 0 {
      HeapHandedOut(m, n, answer);
    }
  }

  /** The first k pages are taken, all others are free, and none is locked. */
  predicate FilledTo(m: Mem, k: nat)
    requires Shaped(m)
  {
    k <= m.pagecount && forall i :: 0 <= i < m.pagecount ==> m.locked[i] == 0 && (m.used[i] != 0 <==> i < k)
  }

  /** set_memstruct starts with count free pages of the given size, and leaves the C heap alone. */
  lemma FreshArena(m: Mem, base: nat, count: nat, size: nat)
    requires Valid(AfterSetMemstruct(m, base, count, size))
    ensures var m' := AfterSetMemstruct(m, base, count, size);
            && FilledTo(m', 0) && m'.pagecount == count && m'.pagesize == size
            && (forall k: nat :: PageStart(m', k) == base + k * size)
            && (forall p: nat :: Live(m', p) <==> p in m.heap)
  {
  }

  /** From there on requests that fit get the pages one after the other, from the base on. */
  lemma PagesInTurn(m: Mem, k: nat, n: nat, answer: nat)
    requires Valid(m) && FilledTo(m, k) && k < m.pagecount && n <= m.pagesize && HeapAnswer(m, answer, n, 0)
    ensures var (m', p) := AfterMalloc(m, n, answer);
            p == m.base + k * m.pagesize && Shaped(m') && FilledTo(m', k + 1)
  {
    assert Available(m, k);
    assert LowestAvailable(m, 0) == k;
    PageTaken(m, k);
    assert PageStart(m, k) == m.base + k * m.pagesize;
    PageGivenOut(m, k);
  }

  /** Page k is free but still locked. */
  predicate Stuck(m: Mem, k: nat)
    requires Shaped(m)
  {
    k < m.pagecount && m.used[k] == 0 && m.locked[k] != 0
  }

  /** The call stores one entry past used[], where the locks of the first four pages lie. */
  predicate Overruns(m: Mem, c: Call) {
    && m.pagecount == MAX_PAGES
    && (c.Free? || (c.Realloc? && c.size > m.pagesize)) && c.p == ArenaEnd(m)
  }

  /** A call makes page k available again exactly when it resets the arena, or runs over the first four locks. */
  lemma StuckKeptIff(m: Mem, c: Call, k: nat)
    requires Valid(m) && Allowed(m, c) && Stuck(m, k)
    ensures Shaped(After(m, c))
    ensures Stuck(After(m, c), k) <==> !c.SetMemstruct? && !(Overruns(m, c) && k < POINTER_SIZE)
  {
    ValidKept(m, c);
    if c.Free? || c.Realloc? {
      PageOrHeap(m, c.p);
    }
    hide Address, HeapApart, HeapAnswer, OffArena;
  }

  /** No call of the run resets the arena or, for one of the first four pages, stores past used[]. */
  ghost predicate Undisturbed(m: Mem, run: seq<Call>, k: nat)
    requires Valid(m) && Possible(m, run)
    decreases |run|
  {
    run != [] ==>
      && !run[0].SetMemstruct? && !(Overruns(m, run[0]) && k < POINTER_SIZE)
      && (ValidKept(m, run[0]); Undisturbed(After(m, run[0]), run[1..], k))
  }

  /**
   * A page freed while it is locked is lost: no run of calls hands it out again, until set_memstruct resets the arena
   * or, in an arena of 32 pages, a block right behind it is given to FREE or outgrows a page in REALLOC.
   */
  lemma {:induction false} LockedPageIsNotReissued(m: Mem, run: seq<Call>, k: nat)
    requires Valid(m) && Possible(m, run) && Stuck(m, k)
    requires Undisturbed(m, run, k)
    ensures Stuck(Reached(m, run), k)
    ensures forall p: nat :: Live(Reached(m, run), p) ==> !InPage(Reached(m, run), p, k)
    decreases |run|
  {
    hide Address, HeapApart, Allowed, After, Overruns;
    if run == [] {
      forall p: nat | Live(m, p) ensures !InPage(m, p, k) {
        NotOnFreePage(m, p, k);
      }
    } else {
      StuckKeptIff(m, run[0], k);
      ValidKept(m, run[0]);
      LockedPageIsNotReissued(After(m, run[0]), run[1..], k);
    }
  }

  lemma NotOnFreePage(m: Mem, p: nat, k: nat)
    requires Valid(m) && Live(m, p) && k < m.pagecount && m.used[k] == 0
    ensures !InPage(m, p, k)
  {
    hide Address;
    if InPage(m, p, k) {
      InPageInArena(m, p, k);
      if p !in m.heap {
        var i := PageOf(m, p);
        BlockIsInItsPage(m, p, i);
        PageIsUnique(m, p, i, k);
      }
    }
  }

  /** Freeing a block that is still locked makes its page stuck. */
  lemma FreeingLockedPageSticks(m: Mem, p: nat, k: nat)
    requires Valid(m) && PageBlock(m, p, k)
    ensures Shaped(AfterFree(m, p)) && (Stuck(AfterFree(m, p), k) <==> m.locked[k] != 0)
  {
    hide Address;
    BlockIsInItsPage(m, p, k);
    BlockIsInItsPage(m, p, PageOf(m, p));
    PageIsUnique(m, p, k, PageOf(m, p));
  }

  lemma SetLockAt(m: Mem, p: nat, k: nat, value: Byte)
    requires Shaped(m) && InPage(m, p, k)
    ensures AfterSetLock(m, p, value) == LockFrom(m, k, value)
  {
    hide Address, InPage;
    forall j: nat | InPage(m, p, j) ensures j == k {
      PageIsUnique(m, p, j, k);
    }
  }

  /** memstruct_setlock sets the locks of the taken pages from the pointer's own page on, and changes nothing else. */
  lemma SetLockEffect(m: Mem, p: nat, value: Byte)
    requires Valid(m)
    ensures var m' := AfterSetLock(m, p, value);
            && m' == m.(locked := m'.locked) && |m'.locked| == MAX_PAGES
            && (forall j: nat :: j < MAX_PAGES ==>
                  m'.locked[j] ==
                  if m.base <= p < ArenaEnd(m) && p < PageStart(m, j + 1) && j < m.pagecount && m.used[j] != 0 then value
                  else m.locked[j])
  {
    hide Address, HeapApart;
    if m.base <= p < ArenaEnd(m) {
      var k := OnSomePage(m, p, m.pagecount);
      SetLockAt(m, p, k, value);
      var m' := AfterSetLock(m, p, value);
      forall j: nat | j < MAX_PAGES
        ensures m'.locked[j] == if p < PageStart(m, j + 1) && Taken(m, j) then value else m.locked[j]
      {
        if k <= j {
          PagesInOrder(m, k + 1, j + 1);
        } else {
          PagesInOrder(m, j + 1, k);
        }
      }
    } else if k: nat :| InPage(m, p, k) {
      InPageInArena(m, p, k);
    }
  }

  /**
   * memstruct_setlock on a block changes that block's lock alone exactly when
   * no later page in use has another lock value: the loop does not stop at the block's own page.
   */
  lemma SetLockHitsLaterPages(m: Mem, p: nat, k: nat, value: Byte)
    requires Valid(m) && PageBlock(m, p, k)
    ensures AfterSetLock(m, p, value) == m.(locked := m.locked[k := value])
      <==> forall j: nat :: k < j && Taken(m, j) ==> m.locked[j] == value
  {
    hide Address, HeapApart;
    BlockIsInItsPage(m, p, k);
    SetLockAt(m, p, k, value);
    var locks := LockFrom(m, k, value).locked;
    if forall j: nat :: k < j && Taken(m, j) ==> m.locked[j] == value {
      assert locks == m.locked[k := value];
    } else {
      var j: nat :| k < j && Taken(m, j) && m.locked[j] != value;
      assert locks[j] == value;
    }
  }

  /** Two pages in use, both locked: unlocking the first unlocks the second as well. */
  lemma UnlockingOneUnlocksAnother()
    ensures var m := Mem(2, 100, 1000, Blank<nat>(0)[0 := 1100][1 := 1200], Blank<Byte>(0)[0 := 1][1 := 1], map[]);
            && Valid(m) && PageBlock(m, 1000, 0) && PageBlock(m, 1100, 1)
            && AfterSetLock(m, 1000, 0).locked[1] == 0 != m.locked[1]
  {
    var m := Mem(2, 100, 1000, Blank<nat>(0)[0 := 1100][1 := 1200], Blank<Byte>(0)[0 := 1][1 := 1], map[]);
    SetLockAt(m, 1000, 0, 0);
  }

  /** m' is m without the block p: every other block is still live and as big, and no lock has changed. */
  ghost predicate GivenBack(m: Mem, p: nat, m': Mem)
    requires Shaped(m) && Shaped(m')
  {
    && (forall q: nat :: Live(m', q) <==> Live(m, q) && q != p)
    && (forall q: nat :: Live(m, q) && Live(m', q) ==> Extent(m', q) == Extent(m, q))
    && m'.locked == m.locked
  }

  /**
   * FREE gives back the block it is given, and does nothing else, exactly when that block does not start where the arena
   * ends.
   */
  lemma FreeGivesBackIff(m: Mem, p: nat)
    requires Valid(m) && Live(m, p)
    ensures Shaped(AfterFree(m, p)) && (GivenBack(m, p, AfterFree(m, p)) <==> p != ArenaEnd(m))
  {
    ValidKept(m, Free(p));
    PageOrHeap(m, p);
    if p == ArenaEnd(m) {
      assert p in m.heap;
      assert Live(AfterFree(m, p), p);
    } else if OnPage(m, p) {
      FreeGivesBackPage(m, p);
    } else {
      FreeGivesBackHeapBlock(m, p);
    }
  }

  lemma FreeGivesBackPage(m: Mem, p: nat)
    requires Valid(m) && OnPage(m, p) && Shaped(AfterFree(m, p))
    ensures GivenBack(m, p, AfterFree(m, p))
  {
    var k, m' := PageOf(m, p), AfterFree(m, p);
    PageOrHeap(m, p);
    BlockIsInItsPage(m, p, k);
    hide Address, HeapApart;
    forall q: nat ensures Live(m', q) <==> Live(m, q) && q != p {
      if i: nat :| PageBlock(m, q, i) {
        if q == p {
          BlockIsInItsPage(m, q, i);
          PageIsUnique(m, p, i, k);
        } else {
          assert i != k;
          assert PageBlock(m', q, i);
        }
      }
      if i: nat :| PageBlock(m', q, i) {
        assert i != k && PageBlock(m, q, i);
        if q == p {
          BlockIsInItsPage(m, q, i);
          PageIsUnique(m, p, i, k);
        }
      }
    }
  }

  lemma FreeGivesBackHeapBlock(m: Mem, p: nat)
    requires Valid(m) && p in m.heap && p != ArenaEnd(m) && Shaped(AfterFree(m, p))
    ensures GivenBack(m, p, AfterFree(m, p))
  {
    PageOrHeap(m, p);
    hide Address, HeapApart;
    var m' := AfterFree(m, p);
    assert m' == DropHeap(m, p);
    forall q: nat, i: nat ensures PageBlock(m', q, i) <==> PageBlock(m, q, i) {
    }
    forall i: nat ensures !PageBlock(m, p, i) {
    }
  }

  /** What happens to a heap block right behind the arena: FREE keeps it, and with 32 pages unlocks the first four. */
  lemma FreeBehindArena(m: Mem, p: nat)
    requires Valid(m) && p in m.heap && p == ArenaEnd(m)
    ensures AfterFree(m, p).heap == m.heap && AfterFree(m, p).used == m.used
    ensures forall i :: 0 <= i < MAX_PAGES ==>
              AfterFree(m, p).locked[i] == if m.pagecount == MAX_PAGES && i < POINTER_SIZE then 0 else m.locked[i]
  {
    PageOrHeap(m, p);
    assert m.pagecount < MAX_PAGES ==> AfterFree(m, p).used == m.used;
  }

  /**
   * REALLOC answers a block too small for the request exactly when the block lies right behind the arena and was too
   * small.
   */
  lemma ReallocTooSmallIff(m: Mem, p: nat, n: nat, answer: nat)
    requires Valid(m) && n > 0 && (p == 0 || Live(m, p)) && ReallocAnswer(m, answer, n, p)
    ensures var (m', r) := AfterRealloc(m, p, n, answer);
            && Valid(m')
            && (r != 0 ==> Live(m', r))
            && (r != 0 && Extent(m', r) < n <==>
                  p in m.heap && p == ArenaEnd(m) && m.heap[p] < n <= m.pagesize)
  {
    hide Address, HeapApart, HeapAnswer;
    ValidKept(m, Realloc(p, n, answer));
    PageOrHeap(m, p);
  }

  /** m' is m with the block p replaced by r, of n bytes: every other block and every lock is as before. */
  ghost predicate Replaced(m: Mem, p: nat, r: nat, n: nat, m': Mem)
    requires Shaped(m) && Shaped(m')
  {
    && Live(m', r) && Extent(m', r) == n
    && (forall q: nat :: q != r ==> (Live(m', q) <==> Live(m, q) && q != p))
    && (forall q: nat :: q != r && Live(m, q) && Live(m', q) ==> Extent(m', q) == Extent(m, q))
    && m'.locked == m.locked
  }

  lemma PageReplaced(m: Mem, p: nat, n: nat, answer: nat)
    requires Valid(m) && OnPage(m, p) && HeapAnswer(m, answer, n, 0) && answer != 0
    ensures var m' := TakeHeap(ClearEntry(m, PageOf(m, p)), n, answer);
            Shaped(m') && Replaced(m, p, answer, n, m')
  {
    var freed := ClearEntry(m, PageOf(m, p));
    EntryCleared(m, PageOf(m, p));
    FreeGivesBackPage(m, p);
    hide Address, HeapApart, OffArena;
    HeapHandedOut(freed, n, answer);
  }

  lemma HeapReplaced(m: Mem, p: nat, n: nat, answer: nat)
    requires Valid(m) && (p in m.heap || p == 0) && PassedOn(m, p) && HeapAnswer(m, answer, n, p) && answer != 0
    ensures var m' := TakeHeap(DropHeap(m, p), n, answer);
            Shaped(m') && Replaced(m, p, answer, n, m')
  {
    var freed := DropHeap(m, p);
    HeapDropped(m, p);
    PageOrHeap(m, p);
    if p != 0 {
      FreeGivesBackHeapBlock(m, p);
    } else {
      assert freed.heap == m.heap;
    }
    hide Address, HeapApart, OffArena;
    HeapHandedOut(freed, n, answer);
  }

  /**
   * What REALLOC does to any block that does not start where the arena ends: a page block that still fits stays, and
   * otherwise the caller gets exactly what the C library answered. A new block takes the old one's place; when there is
   * no memory, a heap block stays as it is and a page block is gone.
   */
  lemma ReallocReplaces(m: Mem, p: nat, n: nat, answer: nat)
    requires Valid(m) && n > 0 && (p == 0 || Live(m, p)) && p != ArenaEnd(m) && ReallocAnswer(m, answer, n, p)
    ensures var (m', r) := AfterRealloc(m, p, n, answer);
            && Shaped(m')
            && (OnPage(m, p) && n <= m.pagesize ==> r == p && m' == m)
            && (!(OnPage(m, p) && n <= m.pagesize) ==>
                  && r == answer
                  && (answer != 0 ==> Replaced(m, p, answer, n, m'))
                  && (answer == 0 && OnPage(m, p) ==> GivenBack(m, p, m'))
                  && (answer == 0 && !OnPage(m, p) ==> m' == m))
  {
    PageOrHeap(m, p);
    hide Address, HeapApart, HeapAnswer, Replaced, GivenBack;
    if OnPage(m, p) {
      FreeGivesBackIff(m, p);
      if n > m.pagesize && answer != 0 {
        PageReplaced(m, p, n, answer);
      }
    } else if answer != 0 {
      HeapReplaced(m, p, n, answer);
    }
  }

  /**
   * A block that starts where the arena ends, and NULL without an arena, outgrowing a page: the caller gets what malloc
   * answered, the old block stays allocated, and with 32 pages the first four locks are lost.
   */
  lemma ReallocBehindArena(m: Mem, p: nat, n: nat, answer: nat)
    requires Valid(m) && n > m.pagesize && (p == 0 || Live(m, p)) && p == ArenaEnd(m) && ReallocAnswer(m, answer, n, p)
    ensures var (m', r) := AfterRealloc(m, p, n, answer);
            && r == answer && m'.used == m.used
            && m'.heap == (if answer == 0 then m.heap else m.heap[answer := n])
            && |m'.locked| == MAX_PAGES
            && (forall i :: 0 <= i < MAX_PAGES ==>
                  m'.locked[i] == if m.pagecount == MAX_PAGES && i < POINTER_SIZE then 0 else m.locked[i])
  {
    PageOrHeap(m, p);
    assert m.pagecount < MAX_PAGES ==> ClearEntry(m, m.pagecount).used == m.used;
  }

  /** Freeing NULL does nothing, with or without an arena. */
  lemma FreeNullIsNothing(m: Mem)
    requires Valid(m)
    ensures AfterFree(m, 0) == m
  {
    PageOrHeap(m, 0);
    if PassedOn(m, 0) {
      assert DropHeap(m, 0).heap == m.heap;
    } else {
      assert ClearEntry(m, m.pagecount).used == m.used;
    }
  }

  lemma ReallocKeepsMisplaced(m: Mem, p: nat, n: nat, answer: nat)
    requires Valid(m) && n > 0 && (p == 0 || Live(m, p)) && ReallocAnswer(m, answer, n, p)
    requires p in m.heap && p == ArenaEnd(m) && n <= m.pagesize
    ensures AfterRealloc(m, p, n, answer) == (m, p) && p != 0
  {
    PageOrHeap(m, p);
  }

  /**
   * One page and a heap block right behind it: freeing the block leaves it allocated, and growing it to 90 bytes returns
   * its 10.
   */
  lemma BlockBehindArenaExample()
    ensures var m := Mem(1, 100, 1000, Blank<nat>(0), Blank<Byte>(0), map[1100 := 10]);
            && Valid(m) && Live(m, 1100)
            && AfterFree(m, 1100) == m
            && AfterRealloc(m, 1100, 90, 0) == (m, 1100)
  {
    var m := Mem(1, 100, 1000, Blank<nat>(0), Blank<Byte>(0), map[1100 := 10]);
    PageOrHeap(m, 1100);
    assert AfterFree(m, 1100).used == m.used;
  }

  /** With 32 pages and a block right behind them, freeing the block takes the lock off the first page. */
  lemma OverrunUnlocksExample()
    ensures var m := Mem(32, 100, 1000, Blank<nat>(0), Blank<Byte>(0)[0 := 1], map[4200 := 10]);
            Valid(m) && Live(m, 4200) && Stuck(m, 0) && Shaped(AfterFree(m, 4200)) && !Stuck(AfterFree(m, 4200), 0)
  {
    var m := Mem(32, 100, 1000, Blank<nat>(0), Blank<Byte>(0)[0 := 1], map[4200 := 10]);
    FreeBehindArena(m, 4200);
    ValidKept(m, Free(4200));
  }

  /** get_memstruct_pagenum names a pointer's own page exactly while that page is in use. */
  lemma PagenumIsOwnPage(m: Mem, p: nat, k: nat)
    requires Shaped(m) && InPage(m, p, k)
    ensures PagenumOf(m, p) == k <==> Taken(m, k)
  {
    hide Address;
    InPageInArena(m, p, k);
    forall j: nat | InPage(m, p, j) ensures j == k {
      PageIsUnique(m, p, j, k);
    }
  }

  /** Two blocks in different pages never share a page number, so the host can tell their frames apart. */
  lemma PagenumsDiffer(m: Mem, p: nat, q: nat, i: nat, j: nat)
    requires Valid(m) && PageBlock(m, p, i) && PageBlock(m, q, j) && p != q
    ensures PagenumOf(m, p) == i != j == PagenumOf(m, q)
  {
    hide Address, HeapApart;
    BlockIsInItsPage(m, p, i);
    BlockIsInItsPage(m, q, j);
    PagenumIsOwnPage(m, p, i);
    PagenumIsOwnPage(m, q, j);
  }
}
