// The page allocator of loader/dshow/cmediasample.c: fixed pages of a shared
// memory arena, handed out and taken back through used[] and locked[], with the
// C heap behind it for everything that does not fit.
module PageArena {
  import opened MachineWords

  const MAX_PAGES := 32

  /**
   * memstruct, together with the blocks the C heap has handed out (start to length).
   * used[i] is 0 (NULL) while page i is free and the address of its end while it is taken.
   */
  datatype Mem = Mem(
    pagecount: nat,
    pagesize: nat,
    base: nat,
    used: seq<nat>,
    locked: seq<Byte>,
    heap: map<nat, nat>)

  function Address(base: nat, pagesize: nat, i: nat): nat {
    base + i * pagesize
  }

  function PageStart(m: Mem, i: nat): nat {
    Address(m.base, m.pagesize, i)
  }

  function ArenaEnd(m: Mem): nat {
    PageStart(m, m.pagecount)
  }

  /** What memset leaves in used[] and locked[]. */
  function Blank<T>(zero: T): (s: seq<T>)
    ensures |s| == MAX_PAGES && forall i :: 0 <= i < MAX_PAGES ==> s[i] == zero
  {
    seq(MAX_PAGES, i => zero)
  }

  /** The shape of memstruct: liveness is encoded as the page's own end address. */
  predicate Shaped(m: Mem) {
    && |m.used| == |m.locked| == MAX_PAGES && m.pagecount <= MAX_PAGES
    && (m.base > 0 || m.pagecount == m.pagesize == 0)
    && (m.pagecount > 0 ==> m.pagesize > 0)
    && (forall i :: 0 <= i < MAX_PAGES && m.used[i] != 0 ==> i < m.pagecount && m.used[i] == PageStart(m, i + 1))
  }

  predicate Apart(p: nat, n: nat, q: nat, l: nat) {
    p != q && (p + n <= q || q + l <= p)
  }

  /** Not NULL, and clear of the arena. A range may well start right where the arena ends. */
  predicate OffArena(m: Mem, p: nat, n: nat) {
    p != 0 && ((p < m.base && p + n <= m.base) || ArenaEnd(m) <= p)
  }

  /**
   * What malloc (except == 0) or realloc of except may answer for n bytes: NULL, or a range clear of everything else.
   */
  predicate HeapAnswer(m: Mem, p: nat, n: nat, except: nat) {
    p == 0 || (OffArena(m, p, n) && forall q :: q in m.heap && q != except ==> Apart(p, n, q, m.heap[q]))
  }

  /** The address test of REALLOC and FREE: a pointer that passes it goes to the C library. */
  predicate PassedOn(m: Mem, p: nat) {
    p < m.base || p > ArenaEnd(m)
  }

  /** What the C library may answer inside REALLOC: realloc moves the block, malloc needs room beside it. */
  predicate ReallocAnswer(m: Mem, answer: nat, n: nat, p: nat) {
    HeapAnswer(m, answer, n, if PassedOn(m, p) then p else 0)
  }

  predicate HeapApart(m: Mem) {
    && (forall p :: p in m.heap ==> OffArena(m, p, m.heap[p]))
    && (forall p, q :: p in m.heap && q in m.heap && p != q ==> Apart(p, m.heap[p], q, m.heap[q]))
  }

  predicate Valid(m: Mem) {
    Shaped(m) && HeapApart(m)
  }

  predicate Taken(m: Mem, i: nat)
    requires Shaped(m)
  {
    i < m.pagecount && m.used[i] != 0
  }

  /** Address p lies in page i. */
  predicate InPage(m: Mem, p: nat, i: nat) {
    i < m.pagecount && PageStart(m, i) <= p < PageStart(m, i + 1)
  }

  /** p is the block that fills page i. */
  predicate PageBlock(m: Mem, p: nat, i: nat)
    requires Shaped(m)
  {
    Taken(m, i) && p == PageStart(m, i)
  }

  ghost predicate Live(m: Mem, p: nat)
    requires Shaped(m)
  {
    p in m.heap || exists i: nat :: PageBlock(m, p, i)
  }

  /** The bytes a live block may use. */
  ghost function Extent(m: Mem, p: nat): nat
    requires Shaped(m) && Live(m, p)
  {
    if p in m.heap then m.heap[p] else m.pagesize
  }

  // ----- page arithmetic -----

  lemma NextAddress(base: nat, pagesize: nat, i: nat)
    ensures Address(base, pagesize, i + 1) == Address(base, pagesize, i) + pagesize
  {
  }

  lemma {:induction false} PagesInOrder(m: Mem, i: nat, j: nat)
    requires i <= j
    ensures PageStart(m, i) <= PageStart(m, j)
    ensures i < j ==> PageStart(m, i) + m.pagesize <= PageStart(m, j)
    decreases j
  {
    hide Address;
    if i < j {
      PagesInOrder(m, i, j - 1);
      NextAddress(m.base, m.pagesize, j - 1);
    }
  }

  lemma PageIsUnique(m: Mem, p: nat, i: nat, j: nat)
    requires InPage(m, p, i) && InPage(m, p, j)
    ensures i == j
  {
    hide Address;
    if i < j {
      PagesInOrder(m, i + 1, j);
    } else if j < i {
      PagesInOrder(m, j + 1, i);
    }
  }

  lemma BlockIsInItsPage(m: Mem, p: nat, i: nat)
    requires Shaped(m) && PageBlock(m, p, i)
    ensures InPage(m, p, i) && m.base <= p < ArenaEnd(m) && p + m.pagesize <= ArenaEnd(m) && p != 0
  {
    assert PageStart(m, 0) == m.base;
    hide Address;
    PagesInOrder(m, 0, i);
    PagesInOrder(m, i, i + 1);
    PagesInOrder(m, i + 1, m.pagecount);
  }

  // ----- the scan every entry point runs -----

  /** i is where the scan for the first page with p < used[i] stops. */
  predicate ScanStops(m: Mem, p: nat, i: nat)
    requires Shaped(m)
  {
    && i <= m.pagecount
    && (forall j :: 0 <= j < i ==> m.used[j] <= p)
    && (i < m.pagecount ==> p < m.used[i])
  }

  /** Comparing with end addresses: p < used[j] holds for exactly the taken pages from p's own page on. */
  lemma BelowEnd(m: Mem, p: nat, k: nat, j: nat)
    requires Shaped(m) && InPage(m, p, k) && j < m.pagecount
    ensures p < m.used[j] <==> Taken(m, j) && k <= j
  {
    hide Address;
    if k <= j {
      PagesInOrder(m, k + 1, j + 1);
    } else {
      PagesInOrder(m, j + 1, k);
    }
  }

  /** The scan stops at the first taken page not before p's own page, and at pagecount if there is none. */
  lemma ScanMeaning(m: Mem, p: nat, k: nat, i: nat)
    requires Shaped(m) && InPage(m, p, k)
    ensures ScanStops(m, p, i) <==>
      && k <= i <= m.pagecount
      && (forall j :: k <= j < i ==> !Taken(m, j))
      && (i < m.pagecount ==> Taken(m, i))
  {
    assert k < m.pagecount;
    hide Address, InPage;
    forall j: nat | j < m.pagecount ensures p < m.used[j] <==> Taken(m, j) && k <= j {
      BelowEnd(m, p, k, j);
    }
  }

  /** The scan finds p's own page exactly when that page is taken. */
  lemma ScanFindsOwnPage(m: Mem, p: nat, k: nat, i: nat)
    requires Shaped(m) && InPage(m, p, k) && ScanStops(m, p, i)
    ensures i == k <==> Taken(m, k)
  {
    hide Address;
    ScanMeaning(m, p, k, i);
  }

  // ----- what each entry point does to the memory -----

  /** MALLOC may take page i. */
  predicate Available(m: Mem, i: nat)
    requires Shaped(m)
  {
    i < m.pagecount && m.used[i] == 0 && m.locked[i] == 0
  }

  /** The lowest available page from i on, or pagecount. */
  function LowestAvailable(m: Mem, i: nat): (r: nat)
    requires Shaped(m) && i <= m.pagecount
    ensures i <= r <= m.pagecount
    ensures forall j :: i <= j < r ==> !Available(m, j)
    ensures r < m.pagecount ==> Available(m, r)
    decreases m.pagecount - i
  {
    if i == m.pagecount || Available(m, i) then i else LowestAvailable(m, i + 1)
  }

  function TakePage(m: Mem, i: nat): Mem
    requires Shaped(m) && i < MAX_PAGES
  {
    m.(used := m.used[i := PageStart(m, i + 1)])
  }

  const POINTER_SIZE := 4

  /**
   * The store used[i] = NULL. One entry past the end of used[] lie the first locks: locked[] follows it in the
   * structure, and a pointer is four bytes wide.
   */
  function ClearEntry(m: Mem, i: nat): Mem
    requires Shaped(m) && i <= MAX_PAGES
  {
    if i < MAX_PAGES then m.(used := m.used[i := 0])
    else m.(locked := [0, 0, 0, 0] + m.locked[POINTER_SIZE..])
  }

  function TakeHeap(m: Mem, n: nat, answer: nat): Mem {
    if answer == 0 then m else m.(heap := m.heap[answer := n])
  }

  function DropHeap(m: Mem, p: nat): Mem {
    m.(heap := map q | q in m.heap && q != p :: m.heap[q])
  }

  function AfterMalloc(m: Mem, n: nat, answer: nat): (Mem, nat)
    requires Shaped(m)
  {
    var i := LowestAvailable(m, 0);
    if i < m.pagecount && n <= m.pagesize then (TakePage(m, i), PageStart(m, i))
    else (TakeHeap(m, n, answer), answer)
  }

  /** The lowest taken page from i on, or pagecount. */
  function FirstTaken(m: Mem, i: nat): (r: nat)
    requires Shaped(m) && i <= m.pagecount
    ensures i <= r <= m.pagecount
    ensures forall j :: i <= j < r ==> !Taken(m, j)
    ensures r < m.pagecount ==> Taken(m, r)
    decreases m.pagecount - i
  {
    if i == m.pagecount || Taken(m, i) then i else FirstTaken(m, i + 1)
  }

  /**
   * What get_memstruct_pagenum means: -1 off the arena, otherwise the first page in use from the pointer's own
   * page on, or pagecount. The address right behind the arena counts as inside and has no page.
   */
  ghost function PagenumOf(m: Mem, p: nat): int
    requires Shaped(m)
  {
    if p < m.base || p > ArenaEnd(m) then -1
    else if exists k: nat :: InPage(m, p, k) then
      var k: nat :| InPage(m, p, k);
      FirstTaken(m, k)
    else m.pagecount
  }

  lemma PageTaken(m: Mem, i: nat)
    requires Valid(m) && i < m.pagecount
    ensures Valid(TakePage(m, i))
  {
    hide Address;
  }

  lemma PageGivenOut(m: Mem, i: nat)
    requires Valid(m) && i < m.pagecount
    ensures PageStart(m, i) != 0
    ensures Shaped(TakePage(m, i)) && PageBlock(TakePage(m, i), PageStart(m, i), i)
  {
    PageTaken(m, i);
    BlockIsInItsPage(TakePage(m, i), PageStart(m, i), i);
  }

  lemma EntryCleared(m: Mem, i: nat)
    requires Valid(m) && i <= MAX_PAGES
    ensures Valid(ClearEntry(m, i))
  {
    hide Address;
  }

  lemma HeapTaken(m: Mem, n: nat, answer: nat)
    requires Valid(m) && HeapAnswer(m, answer, n, 0)
    ensures Valid(TakeHeap(m, n, answer))
  {
    hide Address;
  }

  lemma HeapDropped(m: Mem, p: nat)
    requires Valid(m)
    ensures Valid(DropHeap(m, p)) && p !in DropHeap(m, p).heap
  {
    hide Address;
  }

  ghost predicate OnPage(m: Mem, p: nat)
    requires Shaped(m)
  {
    exists i: nat :: PageBlock(m, p, i)
  }

  ghost function PageOf(m: Mem, p: nat): (i: nat)
    requires Shaped(m) && OnPage(m, p)
    ensures PageBlock(m, p, i)
  {
    var i: nat :| PageBlock(m, p, i);
    i
  }

  ghost function AfterFree(m: Mem, p: nat): Mem
    requires Shaped(m)
  {
    if OnPage(m, p) then ClearEntry(m, PageOf(m, p))
    else if PassedOn(m, p) then DropHeap(m, p)
    else ClearEntry(m, m.pagecount)
  }

  /**
   * A page block that still fits stays; one that does not is given up for the heap. A heap block right behind the
   * arena is treated as a page block without a page.
   */
  ghost function AfterRealloc(m: Mem, p: nat, n: nat, answer: nat): (Mem, nat)
    requires Shaped(m)
  {
    if OnPage(m, p) then
      if n <= m.pagesize then (m, p) else (TakeHeap(ClearEntry(m, PageOf(m, p)), n, answer), answer)
    else if PassedOn(m, p) then
      if answer == 0 then (m, 0) else (TakeHeap(DropHeap(m, p), n, answer), answer)
    else
      if n <= m.pagesize then (m, p) else (TakeHeap(ClearEntry(m, m.pagecount), n, answer), answer)
  }

  function LockFrom(m: Mem, k: nat, value: Byte): Mem
    requires Shaped(m)
  {
    m.(locked := seq(MAX_PAGES, j requires 0 <= j < MAX_PAGES => if k <= j && Taken(m, j) then value else m.locked[j]))
  }

  /** memstruct_setlock: every taken page from the pointer's own page on, not just that page. */
  ghost function AfterSetLock(m: Mem, p: nat, value: Byte): Mem
    requires Shaped(m)
  {
    if exists k: nat :: InPage(m, p, k) then
      var k: nat :| InPage(m, p, k);
      LockFrom(m, k, value)
    else m
  }

  function AfterSetMemstruct(m: Mem, base: nat, count: nat, size: nat): Mem {
    Mem(count, size, base, Blank<nat>(0), Blank<Byte>(0), m.heap)
  }

  /** The address test tells page blocks from heap blocks that do not start where the arena ends. */
  lemma PageOrHeap(m: Mem, p: nat)
    requires Valid(m) && (p == 0 || Live(m, p))
    ensures p in m.heap ==> !OnPage(m, p) && (PassedOn(m, p) <==> p != ArenaEnd(m))
    ensures OnPage(m, p) ==> m.base <= p < ArenaEnd(m)
    ensures p == 0 ==> !OnPage(m, p) && p !in m.heap && (p < m.base || ArenaEnd(m) == 0)
  {
    forall i: nat | PageBlock(m, p, i) ensures m.base <= p < ArenaEnd(m) && p != 0 {
      BlockIsInItsPage(m, p, i);
    }
    PagesInOrder(m, 0, m.pagecount);
  }

  lemma HeapMoved(m: Mem, p: nat, n: nat, answer: nat)
    requires Valid(m) && HeapAnswer(m, answer, n, p)
    ensures Valid(TakeHeap(DropHeap(m, p), n, answer))
  {
    HeapDropped(m, p);
    HeapTaken(DropHeap(m, p), n, answer);
  }

  /**
   * In FREE and REALLOC the scan stops at a page block's own page. For a heap block right behind the arena, and for
   * NULL without an arena, it runs to the page count.
   */
  lemma ScanFindsBlock(m: Mem, p: nat, i: nat)
    requires Valid(m) && (p == 0 || Live(m, p))
    requires !PassedOn(m, p) && ScanStops(m, p, i)
    ensures OnPage(m, p) ==> i == PageOf(m, p) < m.pagecount
    ensures !OnPage(m, p) ==> p == ArenaEnd(m) && i == m.pagecount
  {
    hide Address, HeapApart;
    PageOrHeap(m, p);
    if OnPage(m, p) {
      var k := PageOf(m, p);
      BlockIsInItsPage(m, p, k);
      ScanFindsOwnPage(m, p, k, i);
    } else {
      assert p == ArenaEnd(m);
      if i < m.pagecount {
        PagesInOrder(m, i + 1, m.pagecount);
      }
    }
  }

  lemma InPageInArena(m: Mem, p: nat, k: nat)
    requires InPage(m, p, k)
    ensures m.base <= p < ArenaEnd(m)
  {
    assert PageStart(m, 0) == m.base;
    hide Address;
    PagesInOrder(m, 0, k);
    PagesInOrder(m, k + 1, m.pagecount);
  }

  lemma OnSomePage(m: Mem, p: nat, i: nat) returns (k: nat)
    requires Shaped(m) && m.base <= p < PageStart(m, i) && i <= m.pagecount
    ensures InPage(m, p, k)
    decreases i
  {
    assert PageStart(m, 0) == m.base;
    hide Address;
    if PageStart(m, i - 1) <= p {
      k := i - 1;
    } else {
      k := OnSomePage(m, p, i - 1);
    }
  }

  /** The unbroken loop of memstruct_setlock. */
  lemma LockMeaning(m: Mem, p: nat, value: Byte, locks: seq<Byte>)
    requires Shaped(m) && |locks| == MAX_PAGES
    requires forall j :: 0 <= j < MAX_PAGES ==> locks[j] == if j < m.pagecount && p < m.used[j] then value else m.locked[j]
    requires m.base <= p <= ArenaEnd(m)
    ensures m.(locked := locks) == AfterSetLock(m, p, value)
  {
    hide Address, InPage;
    if k: nat :| InPage(m, p, k) {
      LockFromPage(m, p, k, value, locks);
      forall k': nat | InPage(m, p, k') ensures k == k' {
        PageIsUnique(m, p, k, k');
      }
    } else {
      if p < ArenaEnd(m) {
        var k := OnSomePage(m, p, m.pagecount);
        assert false;
      }
      forall j: nat | j < m.pagecount ensures m.used[j] <= p {
        PagesInOrder(m, j + 1, m.pagecount);
      }
      assert locks == m.locked;
    }
  }

  lemma LockFromPage(m: Mem, p: nat, k: nat, value: Byte, locks: seq<Byte>)
    requires Shaped(m) && |locks| == MAX_PAGES && InPage(m, p, k)
    requires forall j :: 0 <= j < MAX_PAGES ==> locks[j] == if j < m.pagecount && p < m.used[j] then value else m.locked[j]
    ensures m.(locked := locks) == LockFrom(m, k, value)
  {
    hide Address, InPage;
    forall j: nat | j < MAX_PAGES ensures locks[j] == LockFrom(m, k, value).locked[j] {
      if j < m.pagecount {
        BelowEnd(m, p, k, j);
      }
    }
  }

  lemma PageMoved(m: Mem, i: nat, n: nat, answer: nat)
    requires Valid(m) && i <= MAX_PAGES && HeapAnswer(m, answer, n, 0)
    ensures Valid(TakeHeap(ClearEntry(m, i), n, answer))
  {
    EntryCleared(m, i);
    HeapTaken(ClearEntry(m, i), n, answer);
  }

  lemma LocksKeepValid(m: Mem, locks: seq<Byte>)
    requires Valid(m) && |locks| == MAX_PAGES
    ensures Valid(m.(locked := locks))
  {
    hide Address;
  }

  lemma NothingToLock(m: Mem, p: nat, value: Byte)
    requires Shaped(m) && (p < m.base || p > ArenaEnd(m))
    ensures AfterSetLock(m, p, value) == m
  {
    hide Address, InPage;
    if k: nat :| InPage(m, p, k) {
      InPageInArena(m, p, k);
      assert false;
    }
  }

  lemma PagenumOutside(m: Mem, p: nat)
    requires Shaped(m) && (p < m.base || p > ArenaEnd(m))
    ensures PagenumOf(m, p) == -1
  {
  }

  /** The answer of the scan is the page number. */
  lemma PagenumByScan(m: Mem, p: nat, i: nat)
    requires Shaped(m) && m.base <= p <= ArenaEnd(m) && ScanStops(m, p, i)
    ensures PagenumOf(m, p) == i
  {
    forall k: nat | InPage(m, p, k) ensures k < m.pagecount {
    }
    hide Address, InPage;
    if k: nat :| InPage(m, p, k) && k < m.pagecount && PagenumOf(m, p) == FirstTaken(m, k) {
      ScanMeaning(m, p, k, i);
    } else if p < ArenaEnd(m) {
      var k := OnSomePage(m, p, m.pagecount);
    } else if i < m.pagecount {
      PagesInOrder(m, i + 1, m.pagecount);
    }
  }

  class Arena {
    var pagecount: nat
    var pagesize: nat
    var base: nat
    var end: nat
    const used: array<nat>
    const locked: array<Byte>
    ghost var heap: map<nat, nat>

    ghost function State(): Mem
      reads this, used, locked
    {
      Mem(pagecount, pagesize, base, used[..], locked[..], heap)
    }

    ghost predicate Consistent()
      reads this, used, locked
    {
      used.Length == locked.Length == MAX_PAGES && Valid(State()) && end == ArenaEnd(State())
    }

    constructor ()
      ensures Consistent() && fresh(used) && fresh(locked)
      ensures State() == Mem(0, 0, 0, Blank<nat>(0), Blank<Byte>(0), map[])
    {
      pagecount, pagesize, base, end := 0, 0, 0, 0;
      used := new nat[MAX_PAGES](_ => 0);
      locked := new Byte[MAX_PAGES](_ => 0);
      heap := map[];
      new;
      assert used[..] == Blank<nat>(0);
      assert locked[..] == Blank<Byte>(0);
    }

    /** set_memstruct. The page count comes from the server's command line; used[] and locked[] have room for 32. */
    method SetMemstruct(newBase: nat, count: nat, size: nat)
      requires Consistent() && Valid(AfterSetMemstruct(State(), newBase, count, size))
      modifies this, used, locked
      ensures Consistent() && State() == AfterSetMemstruct(old(State()), newBase, count, size)
      ensures base == newBase && pagecount == count && pagesize == size && end == newBase + count * size
      ensures (forall i :: 0 <= i < 32 ==> used[i] == 0 && locked[i] == 0) && heap == old(heap)
    {
      base := newBase;
      end := newBase + size * count;
      pagesize := size;
      pagecount := count;
      forall i | 0 <= i < MAX_PAGES { used[i] := 0; }
      forall i | 0 <= i < MAX_PAGES { locked[i] := 0; }
      assert used[..] == Blank<nat>(0);
      assert locked[..] == Blank<Byte>(0);
    }

    /** The loop shared by every entry point that takes a pointer. */
    method Scan(p: nat) returns (i: nat)
      requires Consistent()
      ensures ScanStops(State(), p, i)
    {
      i := 0;
      while i < pagecount && !(p < used[i])
        invariant i <= pagecount
        invariant forall j :: 0 <= j < i ==> used[j] <= p
      {
        i := i + 1;
      }
    }

    /** get_memstruct_pagenum. */
    method GetPagenum(p: nat) returns (r: int)
      requires Consistent()
      ensures r == PagenumOf(State(), p)
    {
      hide HeapApart, PagenumOf;
      if p < base || p > end {
        PagenumOutside(State(), p);
        return -1;
      }
      var i := Scan(p);
      PagenumByScan(State(), p, i);
      r := i;
    }

    /** The loop of MALLOC. */
    method FindFree() returns (i: nat)
      requires Consistent()
      ensures i == LowestAvailable(State(), 0)
    {
      ghost var m := State();
      assert Shaped(m);
      hide Valid;
      i := 0;
      while i < pagecount && !(used[i] == 0 && locked[i] == 0)
        invariant i <= pagecount && LowestAvailable(m, 0) == LowestAvailable(m, i)
      {
        i := i + 1;
      }
    }

    /** MALLOC. answer is what the C library's malloc would return. */
    method Malloc(size: nat, answer: nat) returns (p: nat)
      requires Consistent() && HeapAnswer(State(), answer, size, 0)
      modifies this`heap, used
      ensures Consistent() && (State(), p) == AfterMalloc(old(State()), size, answer)
      ensures size > pagesize || (forall k: nat :: !old(Available(State(), k))) ==>
                && p == answer && used[..] == old(used[..])
                && heap == if answer == 0 then old(heap) else old(heap)[answer := size]
      ensures size <= pagesize && (exists k: nat :: old(Available(State(), k))) ==>
                && p != 0 && heap == old(heap)
                && exists k: nat :: old(Available(State(), k)) && PageBlock(State(), p, k)
    {
      hide HeapApart, HeapAnswer, LowestAvailable;
      ghost var m := State();
      var i := FindFree();
      if i >= pagecount || size > pagesize {
        p := answer;
        heap := if answer == 0 then heap else heap[answer := size];
        HeapTaken(m, size, answer);
        assert State() == TakeHeap(m, size, answer);
      } else {
        p := base + pagesize * i;
        used[i] := p + pagesize;
        PageTaken(m, i);
        PageGivenOut(m, i);
        NextAddress(base, pagesize, i);
        assert State() == TakePage(m, i);
        hide Valid, TakePage, PageBlock, Address;
      }
    }

    /** used[i] = NULL, for an i up to the page count. */
    method StoreNull(i: nat)
      requires Consistent() && i <= pagecount
      modifies used, locked
      ensures Consistent() && State() == ClearEntry(old(State()), i)
    {
      ghost var m := State();
      EntryCleared(m, i);
      if i < MAX_PAGES {
        used[i] := 0;
      } else {
        locked[0], locked[1], locked[2], locked[3] := 0, 0, 0, 0;
        assert locked[..] == [0, 0, 0, 0] + m.locked[POINTER_SIZE..];
      }
      assert State() == ClearEntry(m, i);
    }

    /** REALLOC. answer is what realloc, or malloc for a block taken for a page, would return. */
    method Realloc(p: nat, size: nat, answer: nat) returns (r: nat)
      requires Consistent() && (p == 0 || Live(State(), p))
      requires size > 0 && ReallocAnswer(State(), answer, size, p)
      modifies this`heap, used, locked
      ensures Consistent() && (State(), r) == AfterRealloc(old(State()), p, size, answer)
    {
      hide HeapApart, HeapAnswer, OffArena;
      ghost var m := State();
      PageOrHeap(m, p);
      if p < base || p > end {
        r := answer;
        if answer != 0 {
          heap := DropHeap(m, p).heap[answer := size];
        }
        HeapMoved(m, p, size, answer);
        return;
      }
      var i := Scan(p);
      ScanFindsBlock(m, p, i);
      if size > pagesize {
        PageMoved(m, i, size, answer);
        StoreNull(i);
        r := answer;
        heap := if answer == 0 then heap else heap[answer := size];
        assert State() == TakeHeap(ClearEntry(m, i), size, answer);
      } else {
        r := p;
      }
    }

    /** FREE. */
    method Free(p: nat)
      requires Consistent() && (p == 0 || Live(State(), p))
      modifies this`heap, used, locked
      ensures Consistent() && State() == AfterFree(old(State()), p)
    {
      hide HeapApart, HeapAnswer, OffArena;
      ghost var m := State();
      PageOrHeap(m, p);
      if p < base || p > end {
        heap := DropHeap(m, p).heap;
        HeapDropped(m, p);
        assert State() == DropHeap(m, p);
        return;
      }
      var i := Scan(p);
      ScanFindsBlock(m, p, i);
      StoreNull(i);
    }

    /** memstruct_setlock: the loop has no break. */
    method SetLock(p: nat, value: Byte)
      requires Consistent()
      modifies locked
      ensures Consistent() && State() == AfterSetLock(old(State()), p, value)
    {
      hide HeapApart, AfterSetLock, Address;
      ghost var m := State();
      if p < base || p > end {
        NothingToLock(m, p, value);
        return;
      }
      var i := 0;
      while i < pagecount
        invariant i <= pagecount
        invariant forall j :: 0 <= j < i ==> locked[j] == if p < used[j] then value else m.locked[j]
        invariant forall j :: i <= j < MAX_PAGES ==> locked[j] == m.locked[j]
      {
        if p < used[i] {
          locked[i] := value;
        }
        i := i + 1;
      }
      LockMeaning(m, p, value, locked[..]);
      LocksKeepValid(m, locked[..]);
      assert State() == m.(locked := locked[..]);
    }
  }
}
