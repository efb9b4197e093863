// VirtualAlloc and VirtualFree of loader/ext.c: requests are rounded in 32-bit
// arithmetic, checked against the list of tracked regions, and passed to mmap.
module VirtualRegions {
  import opened MachineWords

  const GRANULARITY := 0x1_0000
  const PAGE := 0x1000

  /** The allocation type: MEM_COMMIT, MEM_RESERVE, and whether any other bit is set. */
  datatype AllocType = AllocType(commit: bool, reserve: bool, other: bool)

  /** A tracked mapping. reserved is state 0: mapped by a request for MEM_RESERVE and nothing else. */
  datatype Region = Region(address: Word, size: Word, reserved: bool)

  // ----- rounding -----

  /** A request after rounding. */
  datatype Range = Range(address: Word, size: Word)

  function ToGranularity(q: Range, t: AllocType): Range {
    if t.reserve && q.address % GRANULARITY != 0 then
      Range(q.address - q.address % GRANULARITY, (q.size + q.address % GRANULARITY) % WORD)
    else q
  }

  function ToPage(q: Range, t: AllocType): Range {
    if t.commit && q.address % PAGE != 0 then
      Range(q.address - q.address % PAGE, (q.size + q.address % PAGE) % WORD)
    else q
  }

  function AtLeastGranule(q: Range, t: AllocType): Range {
    if t.reserve && q.size < GRANULARITY then q.(size := GRANULARITY) else q
  }

  function WholePages(q: Range): Range {
    if q.size % PAGE != 0 then q.(size := (q.size + (PAGE - q.size % PAGE)) % WORD) else q
  }

  function Rounded(q: Range, t: AllocType): Range {
    WholePages(AtLeastGranule(ToPage(ToGranularity(q, t), t), t))
  }

  /** Where rounding puts the start: the granule below for a reservation, else the page below. */
  function Start(q: Range, t: AllocType): nat {
    if t.reserve then q.address - q.address % GRANULARITY
    else if t.commit then q.address - q.address % PAGE
    else q.address
  }

  /** The size rounding would give if it could not wrap around. */
  function ExactSize(q: Range, t: AllocType): nat {
    var n := q.address - Start(q, t) + q.size;
    var m := if t.reserve && n < GRANULARITY then GRANULARITY else n;
    (m + PAGE - 1) / PAGE * PAGE
  }

  lemma WholePagesUp(n: nat)
    ensures (n + PAGE - 1) / PAGE * PAGE == if n % PAGE == 0 then n else n + (PAGE - n % PAGE)
  {
    var q, r := n / PAGE, n % PAGE;
    assert n == q * PAGE + r;
    assert (n + PAGE - 1) / PAGE == if r == 0 then q else q + 1;
  }

  lemma PageInGranule(a: nat)
    ensures (a - a % GRANULARITY) % PAGE == 0
  {
    var q := a / GRANULARITY;
    assert a - a % GRANULARITY == q * GRANULARITY == (q * 16) * PAGE;
    assert ((q * 16) * PAGE) % PAGE == 0;
  }

  lemma StartIsRounded(q: Range, t: AllocType)
    ensures ToPage(ToGranularity(q, t), t).address == Start(q, t)
    ensures ToPage(ToGranularity(q, t), t).size == (q.address - Start(q, t) + q.size) % WORD
  {
    if t.reserve {
      PageInGranule(q.address);
    }
  }

  function UnwrappedSize(q: Range, t: AllocType): nat {
    q.address - Start(q, t) + q.size
  }

  lemma StartIsNear(q: Range, t: AllocType)
    ensures Start(q, t) <= q.address < Start(q, t) + GRANULARITY
  {
  }

  lemma WholePagesAdd(q: Range) returns (pad: nat)
    ensures pad < PAGE && (q.size + PAGE - 1) / PAGE * PAGE == q.size + pad
    ensures WholePages(q) == Range(q.address, if q.size + pad < WORD then q.size + pad else q.size + pad - WORD)
  {
    WholePagesUp(q.size);
    pad := if q.size % PAGE == 0 then 0 else PAGE - q.size % PAGE;
  }

  lemma RoundedWithoutWrap(q: Range, t: AllocType)
    requires ExactSize(q, t) < WORD
    ensures Rounded(q, t) == Range(Start(q, t), ExactSize(q, t))
  {
    StartIsRounded(q, t);
    StartIsNear(q, t);
    var n := UnwrappedSize(q, t);
    WholePagesUp(if t.reserve && n < GRANULARITY then GRANULARITY else n);
    assert n <= ExactSize(q, t);
    assert ToPage(ToGranularity(q, t), t) == Range(Start(q, t), n);
    hide ToPage, ToGranularity, WholePages, Start;
    var pad := WholePagesAdd(AtLeastGranule(Range(Start(q, t), n), t));
  }

  lemma RoundedWithWrap(q: Range, t: AllocType)
    requires ExactSize(q, t) >= WORD
    ensures Rounded(q, t).address == Start(q, t) && Rounded(q, t).size < q.size
  {
    StartIsRounded(q, t);
    StartIsNear(q, t);
    var n := UnwrappedSize(q, t);
    var r := ToPage(ToGranularity(q, t), t);
    assert r.size == if n < WORD then n else n - WORD;
    WholePagesUp(if t.reserve && n < GRANULARITY then GRANULARITY else n);
    assert n + PAGE > WORD;
    hide ToPage, ToGranularity, WholePages, Start, ExactSize;
    var pad := WholePagesAdd(AtLeastGranule(r, t));
  }

  /** Rounding covers what was asked for exactly when the rounded size still fits in 32 bits. */
  lemma RoundedCoversIff(q: Range, t: AllocType)
    ensures var r := Rounded(q, t);
            && r.address == Start(q, t)
            && (r.address <= q.address && q.address + q.size <= r.address + r.size <==> ExactSize(q, t) < WORD)
            && (ExactSize(q, t) < WORD ==> r.size == ExactSize(q, t))
  {
    hide Rounded;
    if ExactSize(q, t) < WORD {
      RoundedWithoutWrap(q, t);
      WholePagesUp(if t.reserve && UnwrappedSize(q, t) < GRANULARITY then GRANULARITY else UnwrappedSize(q, t));
    } else {
      RoundedWithWrap(q, t);
    }
  }

  /** A reservation of almost 4 GB at an address in the middle of a granule comes out as 64 KB. */
  lemma RoundingWrapExample()
    ensures Rounded(Range(0x1_8000, 0xFFFF_9000), AllocType(false, true, false)) == Range(0x1_0000, 0x1_0000)
  {
  }

  // ----- the list of regions -----

  predicate Meets(r: Region, q: Range) {
    q.address < r.address + r.size && r.address < q.address + q.size
  }

  predicate Within(q: Range, r: Region) {
    r.address <= q.address && q.address + q.size <= r.address + r.size
  }

  predicate Proper(r: Region) {
    r.address > 0 && r.size > 0 && r.address + r.size < WORD
  }

  predicate Apart(r: Region, s: Region) {
    !Meets(r, Range(s.address, s.size))
  }

  /** Tracked regions are real ranges below 4 GB, and no two of them meet. */
  predicate Valid(rs: seq<Region>) {
    && (forall i :: 0 <= i < |rs| ==> Proper(rs[i]))
    && (forall i, j :: 0 <= i < j < |rs| ==> Apart(rs[i], rs[j]))
  }

  lemma ValidSnoc(rs: seq<Region>, r: Region)
    ensures Valid(rs + [r]) <==> Valid(rs) && Proper(r) && forall x <- rs :: Apart(x, r)
  {
    hide Proper, Apart;
    var rs' := rs + [r];
    if Valid(rs') {
      forall i | 0 <= i < |rs| ensures rs[i] == rs'[i] && Proper(rs[i]) && Apart(rs[i], r) {
        assert rs'[|rs|] == r;
      }
      forall i, j | 0 <= i < j < |rs| ensures Apart(rs[i], rs[j]) {
        assert Apart(rs'[i], rs'[j]);
      }
    }
  }

  /** What the scan of the list decides. */
  datatype Verdict = Clear | Inside | Blocked

  /** The two comparisons that pass over a region; their sums are 32-bit. */
  predicate PassedOver(r: Region, q: Range) {
    q.address >= (r.address + r.size) % WORD || (q.address + q.size) % WORD <= r.address
  }

  predicate Contains32(r: Region, q: Range) {
    q.address >= r.address && (q.address + q.size) % WORD <= (r.address + r.size) % WORD
  }

  /** The scan, from the newest region back. */
  function Scan(rs: seq<Region>, q: Range, commit: bool): Verdict
    decreases |rs|
  {
    if rs == [] then Clear
    else
      var r := rs[|rs| - 1];
      if PassedOver(r, q) then Scan(rs[..|rs| - 1], q, commit)
      else if r.reserved && Contains32(r, q) && commit then Inside
      else Blocked
  }

  lemma {:induction false} ScanStopsAt(rs: seq<Region>, q: Range, commit: bool, i: nat)
    requires i < |rs| && !PassedOver(rs[i], q)
    requires forall j :: i < j < |rs| ==> PassedOver(rs[j], q)
    ensures Scan(rs, q, commit) == if rs[i].reserved && Contains32(rs[i], q) && commit then Inside else Blocked
    decreases |rs|
  {
    if i < |rs| - 1 {
      ScanStopsAt(rs[..|rs| - 1], q, commit, i);
    }
  }

  lemma {:induction false} ScanClear(rs: seq<Region>, q: Range, commit: bool)
    requires forall j :: 0 <= j < |rs| ==> PassedOver(rs[j], q)
    ensures Scan(rs, q, commit) == Clear
    decreases |rs|
  {
    if rs != [] {
      ScanClear(rs[..|rs| - 1], q, commit);
    }
  }

  lemma {:induction false} LastMet(rs: seq<Region>, q: Range) returns (i: nat)
    requires exists j :: 0 <= j < |rs| && !PassedOver(rs[j], q)
    ensures i < |rs| && !PassedOver(rs[i], q) && forall j :: i < j < |rs| ==> PassedOver(rs[j], q)
    decreases |rs|
  {
    var n := |rs| - 1;
    if !PassedOver(rs[n], q) {
      i := n;
    } else {
      var j :| 0 <= j < |rs| && !PassedOver(rs[j], q);
      assert rs[..n][j] == rs[j];
      i := LastMet(rs[..n], q);
      assert rs[..n][i] == rs[i];
      forall j | i < j < |rs| ensures PassedOver(rs[j], q) {
        if j < n {
          assert rs[..n][j] == rs[j];
        }
      }
    }
  }

  /** Some region met by the range is a reservation that contains it. */
  predicate InReservation(rs: seq<Region>, q: Range) {
    exists i :: 0 <= i < |rs| && rs[i].reserved && Within(q, rs[i])
  }

  predicate MeetsSome(rs: seq<Region>, q: Range) {
    exists i :: 0 <= i < |rs| && Meets(rs[i], q)
  }

  /**
   * Without wrap-around the scan's verdict depends on the set of regions alone, not on their order: clear if the range
   * meets none; inside if it is to be committed and lies in a reservation; blocked otherwise. Stopping at the first
   * region met is right because a range inside one region meets no other.
   */
  lemma ScanMeaning(rs: seq<Region>, q: Range, commit: bool)
    requires Valid(rs) && q.size > 0 && q.address + q.size < WORD
    ensures Scan(rs, q, commit) ==
            if !MeetsSome(rs, q) then Clear else if commit && InReservation(rs, q) then Inside else Blocked
  {
    forall i | 0 <= i < |rs|
      ensures PassedOver(rs[i], q) <==> !Meets(rs[i], q)
      ensures Contains32(rs[i], q) <==> Within(q, rs[i])
    {
    }
    if MeetsSome(rs, q) {
      var i := LastMet(rs, q);
      ScanStopsAt(rs, q, commit, i);
      hide PassedOver, Contains32;
      if k :| 0 <= k < |rs| && rs[k].reserved && Within(q, rs[k]) {
        OnlyOneMet(rs, q, k, i);
      }
    } else {
      ScanClear(rs, q, commit);
    }
  }

  lemma OnlyOneMet(rs: seq<Region>, q: Range, k: nat, i: nat)
    requires Valid(rs) && q.size > 0 && k < |rs| && i < |rs| && Within(q, rs[k]) && Meets(rs[i], q)
    ensures i == k
  {
  }

  /** "Inside" is only ever right for a range that does not wrap: the test takes the others for small ones. */
  lemma InsideIsRightIff(rs: seq<Region>, q: Range)
    requires Valid(rs) && q.size > 0 && Scan(rs, q, true) == Inside
    ensures InReservation(rs, q) <==> q.address + q.size < WORD
  {
    if q.address + q.size < WORD {
      ScanMeaning(rs, q, true);
    }
  }

  /** Committing almost 4 GB from the middle of a 128 KB reservation is granted. */
  lemma InsideWrapExample()
    ensures var rs, q := [Region(0x1_0000, 0x2_0000, true)], Range(0x2_0000, 0xFFFF_F000);
            Valid(rs) && Rounded(q, AllocType(true, false, false)) == q
            && Scan(rs, q, true) == Inside && !InReservation(rs, q)
  {
  }

  // ----- the two entry points -----

  /** What mmap answers: failure, or a mapping. */
  datatype Kernel = Failed | Mapped(address: Word)

  /**
   * mmap maps real ranges below 4 GB. Where the caller names no address, the range is off every tracked region;
   * where the caller names one, nothing is assumed about it.
   */
  predicate KernelOk(rs: seq<Region>, r: Range, k: Kernel) {
    k.Mapped? ==>
      && k.address > 0 && r.size > 0 && k.address + r.size < WORD
      && (r.address == 0 ==> !MeetsSome(rs, Range(k.address, r.size)))
  }

  function Track(rs: seq<Region>, r: Range, t: AllocType, k: Kernel): (seq<Region>, Word) {
    if k.Failed? || (r.address != 0 && k.address != r.address) then (rs, 0)
    else (rs + [Region(k.address, r.size, t == AllocType(false, true, false))], k.address)
  }

  function AfterAlloc(rs: seq<Region>, q: Range, t: AllocType, k: Kernel): (seq<Region>, Word) {
    if !t.commit && !t.reserve then (rs, 0)
    else
      var r := Rounded(q, t);
      var verdict := if r.address != 0 then Scan(rs, r, t.commit) else Clear;
      match verdict
      case Inside => (rs, r.address)
      case Blocked => (rs, 0)
      case Clear => Track(rs, r, t, k)
  }

  /** The regions that do not start at a. */
  function AfterFree(rs: seq<Region>, a: Word): seq<Region> {
    if rs == [] then []
    else
      var rest := AfterFree(rs[..|rs| - 1], a);
      if rs[|rs| - 1].address == a then rest else rest + [rs[|rs| - 1]]
  }

  /**
   * When a request with an address of its own succeeds: it is a commit inside a reservation, which then needs no new
   * mapping, or it meets no tracked region and the kernel grants that very address. The answer is the rounded address.
   */
  lemma AllocSucceedsIff(rs: seq<Region>, q: Range, t: AllocType, k: Kernel)
    requires Valid(rs) && KernelOk(rs, Rounded(q, t), k) && (t.commit || t.reserve)
    requires Rounded(q, t).address > 0 && Rounded(q, t).size > 0 && Rounded(q, t).address + Rounded(q, t).size < WORD
    ensures var (rs', a) := AfterAlloc(rs, q, t, k);
            var r := Rounded(q, t);
            && (a != 0 <==> (t.commit && InReservation(rs, r)) || (!MeetsSome(rs, r) && k == Mapped(r.address)))
            && (a != 0 ==> a == r.address)
            && (rs' == rs <==> a == 0 || MeetsSome(rs, r))
  {
    ScanMeaning(rs, Rounded(q, t), t.commit);
    hide Rounded, Scan, Valid, KernelOk;
    var r := Rounded(q, t);
    if i :| 0 <= i < |rs| && rs[i].reserved && Within(r, rs[i]) {
      assert Meets(rs[i], r);
    }
  }

  /**
   * What any request does, at an address or at none: it maps nothing, or tracks exactly one new region at the answer, of
   * the rounded size, as a reservation exactly when MEM_RESERVE was all it asked for. Without MEM_COMMIT and MEM_RESERVE
   * it fails; and a request whose rounded address is NULL gets whatever the kernel grants.
   */
  lemma AllocTracksAnswer(rs: seq<Region>, q: Range, t: AllocType, k: Kernel)
    requires Valid(rs) && KernelOk(rs, Rounded(q, t), k)
    ensures var (rs', a) := AfterAlloc(rs, q, t, k);
            var r, asked := Rounded(q, t), t.commit || t.reserve;
            && (!asked ==> rs' == rs && a == 0)
            && (rs' != rs ==>
                  && a != 0 && k == Mapped(a) && (r.address == 0 || r.address == a)
                  && rs' == rs + [Region(a, r.size, t.reserve && !t.commit && !t.other)])
            && (asked && r.address == 0 ==> (a == 0 <==> k.Failed?) && (rs' == rs <==> k.Failed?))
  {
    hide Rounded, Scan, Valid;
  }

  lemma TrackKeeps(rs: seq<Region>, r: Range, t: AllocType, k: Kernel)
    requires Valid(rs) && KernelOk(rs, r, k)
    requires r.address != 0 ==> Scan(rs, r, t.commit) == Clear
    ensures Valid(Track(rs, r, t, k).0)
  {
    if k.Mapped? && r.address == k.address {
      ScanMeaning(rs, r, t.commit);
    }
  }

  /**
   * An allocation keeps the regions disjoint, also one at an address of the caller's choice: the scan has checked it.
   */
  lemma AllocKeeps(rs: seq<Region>, q: Range, t: AllocType, k: Kernel)
    requires Valid(rs) && KernelOk(rs, Rounded(q, t), k)
    ensures Valid(AfterAlloc(rs, q, t, k).0)
  {
    hide Valid, Rounded, KernelOk, Track, Scan;
    var r := Rounded(q, t);
    if (t.commit || t.reserve) && (r.address == 0 || Scan(rs, r, t.commit) == Clear) {
      TrackKeeps(rs, r, t, k);
    }
  }

  /** A release drops exactly the regions that start at the address. */
  lemma {:induction false} FreeMembers(rs: seq<Region>, a: Word)
    ensures forall r :: r in AfterFree(rs, a) <==> r in rs && r.address != a
    ensures (forall r <- rs :: r.address != a) ==> AfterFree(rs, a) == rs
    decreases |rs|
  {
    if rs != [] {
      var n := |rs| - 1;
      FreeMembers(rs[..n], a);
      assert rs == rs[..n] + [rs[n]];
    }
  }

  lemma {:induction false} FreeKeeps(rs: seq<Region>, a: Word)
    requires Valid(rs)
    ensures Valid(AfterFree(rs, a))
    decreases |rs|
  {
    if rs != [] {
      hide Valid, Proper, Apart;
      var n := |rs| - 1;
      assert rs == rs[..n] + [rs[n]];
      ValidSnoc(rs[..n], rs[n]);
      FreeKeeps(rs[..n], a);
      FreeMembers(rs[..n], a);
      ValidSnoc(AfterFree(rs[..n], a), rs[n]);
    }
  }

  datatype Call = Alloc(q: Range, t: AllocType, k: Kernel) | Free(a: Word)

  function After(rs: seq<Region>, c: Call): seq<Region> {
    match c
    case Alloc(q, t, k) => AfterAlloc(rs, q, t, k).0
    case Free(a) => AfterFree(rs, a)
  }

  predicate Possible(rs: seq<Region>, run: seq<Call>)
    decreases |run|
  {
    run != [] ==>
      && (run[0].Alloc? ==> KernelOk(rs, Rounded(run[0].q, run[0].t), run[0].k))
      && Possible(After(rs, run[0]), run[1..])
  }

  function Reached(rs: seq<Region>, run: seq<Call>): seq<Region>
    decreases |run|
  {
    if run == [] then rs else Reached(After(rs, run[0]), run[1..])
  }

  /** Over every run of allocations and releases the tracked regions stay pairwise disjoint. */
  lemma {:induction false} RegionsApartAlways(rs: seq<Region>, run: seq<Call>)
    requires Valid(rs) && Possible(rs, run)
    ensures Valid(Reached(rs, run))
    decreases |run|
  {
    if run != [] {
      match run[0] {
        case Alloc(q, t, k) => AllocKeeps(rs, q, t, k);
        case Free(a) => FreeKeeps(rs, a);
      }
      hide Valid, AfterAlloc, AfterFree;
      RegionsApartAlways(After(rs, run[0]), run[1..]);
    }
  }

  /** Releasing what an allocation has just mapped restores the list. */
  lemma FreeUndoesAlloc(rs: seq<Region>, q: Range, t: AllocType, k: Kernel)
    requires Valid(rs) && KernelOk(rs, Rounded(q, t), k)
    requires |AfterAlloc(rs, q, t, k).0| > |rs|
    ensures AfterFree(AfterAlloc(rs, q, t, k).0, AfterAlloc(rs, q, t, k).1) == rs
  {
    AllocKeeps(rs, q, t, k);
    var (rs', a) := AfterAlloc(rs, q, t, k);
    hide AfterAlloc, Scan, Rounded, KernelOk;
    AllocAppends(rs, q, t, k);
    var n := |rs|;
    assert rs'[..n] == rs;
    forall r | r in rs ensures r.address != a {
      var i :| 0 <= i < n && rs[i] == r;
      assert Apart(rs'[i], rs'[n]);
    }
    FreeMembers(rs, a);
  }

  lemma AllocAppends(rs: seq<Region>, q: Range, t: AllocType, k: Kernel)
    requires |AfterAlloc(rs, q, t, k).0| > |rs|
    ensures var (rs', a) := AfterAlloc(rs, q, t, k);
            |rs'| == |rs| + 1 && rs'[..|rs|] == rs && rs'[|rs|].address == a && rs'[|rs|].size == Rounded(q, t).size
  {
    hide Rounded, Scan;
  }

  /** The loader's list vm, oldest first; the code walks it from the newest back. */
  class VirtualMemory {
    var regions: seq<Region>

    constructor ()
      ensures regions == []
    {
      regions := [];
    }

    method VirtualAlloc(address: Word, size: Word, t: AllocType, k: Kernel) returns (r: Word)
      requires Valid(regions) && KernelOk(regions, Rounded(Range(address, size), t), k)
      modifies this
      ensures Valid(regions)
      ensures (regions, r) == AfterAlloc(old(regions), Range(address, size), t, k)
    {
      AllocKeeps(regions, Range(address, size), t, k);
      hide Valid, KernelOk, Scan, Rounded;
      if !t.commit && !t.reserve {
        return 0;
      }
      var a, n := RoundRequest(address, size, t);
      if a != 0 {
        var verdict := ScanRegions(a, n, t.commit);
        if verdict == Inside {
          return a;
        }
        if verdict == Blocked {
          return 0;
        }
      }
      if k.Failed? || (a != 0 && k.address != a) {
        return 0;
      }
      regions := regions + [Region(k.address, n, t.reserve && !t.commit && !t.other)];
      r := k.address;
    }

    method RoundRequest(address: Word, size: Word, t: AllocType) returns (a: Word, n: Word)
      ensures Range(a, n) == Rounded(Range(address, size), t)
    {
      a, n := address, size;
      if t.reserve && a % GRANULARITY != 0 {
        n := (n + a % GRANULARITY) % WORD;
        a := a - a % GRANULARITY;
      }
      if t.commit && a % PAGE != 0 {
        n := (n + a % PAGE) % WORD;
        a := a - a % PAGE;
      }
      if t.reserve && n < GRANULARITY {
        n := GRANULARITY;
      }
      if n % PAGE != 0 {
        n := (n + (PAGE - n % PAGE)) % WORD;
      }
    }

    method ScanRegions(a: Word, n: Word, commit: bool) returns (v: Verdict)
      ensures v == Scan(regions, Range(a, n), commit)
    {
      ghost var q := Range(a, n);
      var str := |regions|;
      assert regions[..str] == regions;
      while str > 0
        invariant 0 <= str <= |regions|
        invariant Scan(regions, q, commit) == Scan(regions[..str], q, commit)
      {
        var region := regions[str - 1];
        assert regions[..str][..str - 1] == regions[..str - 1];
        if a >= (region.address + region.size) % WORD {
          str := str - 1;
          continue;
        }
        if (a + n) % WORD <= region.address {
          str := str - 1;
          continue;
        }
        if region.reserved {
          if a >= region.address && (a + n) % WORD <= (region.address + region.size) % WORD && commit {
            return Inside;
          }
        }
        return Blocked;
      }
      v := Clear;
    }

    method VirtualFree(address: Word) returns (r: int)
      requires Valid(regions)
      modifies this
      ensures Valid(regions) && regions == AfterFree(old(regions), address)
      ensures r == if exists x <- old(regions) :: x.address == address then 0 else -1
    {
      FreeKeeps(regions, address);
      FreeMembers(regions, address);
      hide Valid, AfterFree;
      var str := |regions|;
      while str > 0
        invariant 0 <= str <= |regions|
        invariant forall j :: str <= j < |regions| ==> regions[j].address != address
      {
        if regions[str - 1].address != address {
          str := str - 1;
          continue;
        }
        FreeAt(regions, address, str - 1);
        assert regions[str - 1] in regions;
        regions := regions[..str - 1] + regions[str..];
        return 0;
      }
      r := -1;
    }
  }

  /** Starts are unique, so taking out the one region found takes out all that start there. */
  lemma {:induction false} FreeAt(rs: seq<Region>, a: Word, i: nat)
    requires Valid(rs) && i < |rs| && rs[i].address == a
    ensures AfterFree(rs, a) == rs[..i] + rs[i + 1..]
    decreases |rs|
  {
    var n := |rs| - 1;
    if i == n {
      forall r | r in rs[..n] ensures r.address != a {
        var j :| 0 <= j < n && rs[j] == r;
        assert Apart(rs[j], rs[n]);
      }
      FreeMembers(rs[..n], a);
      assert rs[..i] + rs[i + 1..] == rs[..n];
    } else {
      FreeAt(rs[..n], a, i);
      assert Apart(rs[i], rs[n]);
      assert rs[..i] + rs[i + 1..] == rs[..n][..i] + rs[..n][i + 1..] + [rs[n]];
    }
  }
}
