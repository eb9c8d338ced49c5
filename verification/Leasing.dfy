/** A successful reservation as a lease: the flat effect of every kind of reservation, and why it lets its holder commit. */
module Leasing {
  import opened Bits
  import opened Outcomes
  import opened Descriptors
  import opened AddressSpace
  import opened Frames
  import opened Evolution
  import opened Reservation

  /** Page u is in one of the n units of size g from the unit of page v on. */
  predicate InUnits(g: Granularity, v: nat, n: nat, u: nat) {
    UnitBase(g, v) <= u < UnitBase(g, v) + Span(g, n)
  }

  /** q is t with n units of free pages, from the unit of page v on, reserved at granularity g, and nothing else changed. */
  ghost predicate LeaseEffect(t: Table, q: Table, g: Granularity, v: nat, n: nat) {
    && SameTable(t, q) && UnitBase(g, v) + Span(g, n) <= PageCount(t)
    && forall u :: 0 <= u < PageCount(t) ==>
         if InUnits(g, v, n, u) then At(t, u) == Free && At(q, u) == Reserved(Lease(g)) else At(q, u) == At(t, u)
  }

  /** Leased pages are committable, unit by unit. */
  lemma LeaseReady(t: Table, g: Granularity, v: nat, n: nat)
    requires n == 0 || UnitBase(g, v) + Span(g, n) <= PageCount(t)
    requires forall u :: 0 <= u < PageCount(t) && InUnits(g, v, n, u) ==> At(t, u) == Reserved(Lease(g))
    ensures forall k :: 0 <= k < n ==> Committable(t, g, v + Span(g, k))
    ensures Ready(t, g, v, n) == n
  {
    hide At;
    forall k | 0 <= k < n ensures Committable(t, g, v + Span(g, k)) {
      UnitBaseStep(g, v, k);
      SpanMono(g, k + 1, n);
      UnitIndexFacts(g, 0, k);
    }
    ReadyIs(t, g, v, n, n);
  }

  lemma PagesLease(t: Table, q: Table, v: nat, n: nat)
    requires ReservedPages(t, q, v, n) && AllFree(t, v, n) && n > 0
    ensures LeaseEffect(t, q, Page, v, n)
  {
    hide At;
  }

  lemma WindowAt(t: Table, s: nat, n: nat, u: nat)
    requires FreeWindow(t.l1, s, n) && u < PageCount(t) && 0x100 * s <= u < 0x100 * (s + n)
    ensures At(t, u) == Free
  {
    assert s <= u / 0x100 < s + n;
  }

  /** Marking free sections leases them. */
  lemma SectionsLease(t: Table, s: nat, n: nat, g: Granularity, v: nat, k: nat)
    requires FreeWindow(t.l1, s, n) && g != Page && UnitBase(g, v) == 0x100 * s && Span(g, k) == 0x100 * n
    ensures s + n <= |t.l1| && LeaseEffect(t, MarkSections(t, s, n), g, v, k)
  {
    hide At;
    forall u | 0 <= u < PageCount(t)
      ensures At(MarkSections(t, s, n), u) == if InUnits(g, v, k, u) then Reserved(Section) else At(t, u)
      ensures InUnits(g, v, k, u) ==> At(t, u) == Free
    {
      MarkSectionsAt(t, s, n, u);
      if InUnits(g, v, k, u) {
        WindowAt(t, s, n, u);
      }
    }
  }

  /** Every successful placed reservation of at least one unit is a lease of exactly the requested units. */
  lemma ReserveAtLeases(s: Snapshot, r: Outcome<Result<nat>>, q: Snapshot, g: Granularity, v: nat, n: nat)
    requires ReserveAtOutcome(s, r, q, g, v, n) && n > 0 && r.Done? && r.value.Success?
    ensures LeaseEffect(s.t, q.t, g, v, n)
    ensures r.value.value == PAGE_SIZE * UnitBase(g, v)
  {
    hide At, LeaseEffect, AllFree, ReservedPages, FreeWindow, MarkSections, AllocRun, SplitsNeeded;
    UnitBaseFacts(g, v);
    match g
    case Page => PagesLease(s.t, q.t, v, n);
    case Section => SectionsLease(s.t, v / 0x100, n, g, v, n);
    case Supersection => SectionsLease(s.t, 16 * (v / 0x1000), 16 * n, g, v, n);
  }

  /** So is every successful unplaced reservation, of the units at the address that it returns. */
  lemma ReserveLeases(s: Snapshot, r: Outcome<Result<nat>>, q: Snapshot, g: Granularity, n: nat)
    requires Coherent(s) && ReserveOutcome(s, r, q, g, n) && n > 0 && (g == Page ==> n <= 0x100) && r.Done? && r.value.Success?
    ensures LeasedAt(s.t, q.t, g, r.value.value, n)
  {
    hide LeasedAt, Coherent, FirstFitPages, FirstFitSections, FirstFitSupersections;
    match g
    case Page => PagesLeased(s, r, q, n);
    case Section => SectionsLeased(s.t, r.value, q.t, n);
    case Supersection => SupersectionsLeased(s.t, r.value, q.t, n);
  }

  /** The n units from the given address on have been leased. */
  ghost predicate LeasedAt(t: Table, q: Table, g: Granularity, address: nat, n: nat) {
    address % PAGE_SIZE == 0 && var v := address / PAGE_SIZE; LeaseEffect(t, q, g, v, n) && UnitBase(g, v) == v
  }

  lemma PagesLeased(s: Snapshot, r: Outcome<Result<nat>>, q: Snapshot, n: nat)
    requires Coherent(s) && FirstFitPages(s.a, s.t, r, q.a, q.t, n) && 0 < n <= 0x100 && r.Done? && r.value.Success?
    ensures LeasedAt(s.t, q.t, Page, r.value.value, n)
  {
    hide At, LeaseEffect, AllFree, ReservedPages, FreeWindow, AllocRun, SplitSpec, MarkPages;
    if forall k: nat :: NoPageWindow(s.t, k, n) {
      NewTableLeases(s, r, q, n);
    } else {
      var i: nat, j: nat :| FirstWindow(s.t, i, j, n)
                            && r == Done(Success(i * SECTION_SIZE + j * PAGE_SIZE)) && q.t == MarkPages(s.t, i, j, n);
      DivMod(PAGE_SIZE, 0x100 * i + j, 0);
      WindowLeases(s.t, i, j, n);
    }
  }

  lemma SectionsLeased(t: Table, r: Result<nat>, q: Table, n: nat)
    requires FirstFitSections(t, r, q, n) && n > 0 && r.Success?
    ensures LeasedAt(t, q, Section, r.value, n)
  {
    hide At, LeaseEffect, FreeWindow, MarkSections;
    var i: nat :| FreeWindow(t.l1, i, n) && r.value == i * SECTION_SIZE && i + n <= |t.l1| && q == MarkSections(t, i, n);
    DivMod(PAGE_SIZE, 0x100 * i, 0);
    DivMod(0x100, i, 0);
    SectionsLease(t, i, n, Section, 0x100 * i, n);
  }

  lemma SupersectionsLeased(t: Table, r: Result<nat>, q: Table, n: nat)
    requires FirstFitSupersections(t, r, q, n) && n > 0 && r.Success?
    ensures LeasedAt(t, q, Supersection, r.value, n)
  {
    hide At, LeaseEffect, FreeWindow, MarkSections;
    var i: nat :| FreeGroups(t.l1, i, n) && 16 * i + 16 * n <= |t.l1| && r.value == i * SUPERSECTION_SIZE
                  && q == MarkSections(t, 16 * i, 16 * n);
    DivMod(PAGE_SIZE, 0x1000 * i, 0);
    DivMod(0x1000, i, 0);
    SectionsLease(t, 16 * i, 16 * n, Supersection, 0x1000 * i, n);
  }

  lemma WindowLeases(t: Table, i: nat, j: nat, n: nat)
    requires PageWindow(t, i, j, n) && n > 0 && WfDescs(t)
    ensures LeaseEffect(t, MarkPages(t, i, j, n), Page, 0x100 * i + j, n)
  {
    MarkPagesReserves(t, i, j, n);
    DivMod(0x100, i, j);
    SectionPagesFree(t, 0x100 * i + j, n);
    PagesLease(t, MarkPages(t, i, j, n), 0x100 * i + j, n);
  }

  lemma FreeSection(t: Table, i: nat, n: nat)
    requires FreeWindow(t.l1, i, 1) && WfDescs(t) && 0 < n <= 0x100
    ensures AllFree(t, 0x100 * i, n)
  {
    DivMod(0x100, i, 0);
    SectionPagesFree(t, 0x100 * i, n);
  }

  lemma NewTableMeans(a: FrameState, t: Table, r: Outcome<Result<nat>>, b: FrameState, u: Table, n: nat, i: nat)
    requires FreeWindow(t.l1, i, 1) && NewTableAt(a, t, r, b, u, n, i) && r.Done?
    ensures r.value == Success(i * SECTION_SIZE) && ReservedPages(t, u, 0x100 * i, n)
  {
    hide ReservedPages, AllocSpec;
  }

  lemma NewTableFound(a: FrameState, t: Table, r: Outcome<Result<nat>>, b: FrameState, u: Table, n: nat) returns (i: nat)
    requires NewTableFit(a, t, r, b, u, n) && r.Done? && r.value.Success?
    ensures FreeWindow(t.l1, i, 1) && NewTableAt(a, t, r, b, u, n, i)
  {
    hide NewTableAt, FreeWindow;
    i :| FreeWindow(t.l1, i, 1) && NewTableAt(a, t, r, b, u, n, i);
  }

  lemma NewTableLeases(s: Snapshot, r: Outcome<Result<nat>>, q: Snapshot, n: nat)
    requires Coherent(s) && NewTableFit(s.a, s.t, r, q.a, q.t, n) && 0 < n <= 0x100 && r.Done? && r.value.Success?
    ensures r.value.value % PAGE_SIZE == 0 && LeaseEffect(s.t, q.t, Page, r.value.value / PAGE_SIZE, n)
  {
    hide At, LeaseEffect, ReservedPages, SplitSpec, AllFree, Coherent, FreeWindow, NewTableAt, NewTableFit;
    CoherentDescs(s);
    var i := NewTableFound(s.a, s.t, r, q.a, q.t, n);
    NewTableMeans(s.a, s.t, r, q.a, q.t, n, i);
    DivMod(PAGE_SIZE, 0x100 * i, 0);
    FreeSection(s.t, i, n);
    PagesLease(s.t, q.t, 0x100 * i, n);
  }

  /** There is no room anywhere for n more units of size g. */
  ghost predicate NoRoom(t: Table, g: Granularity, n: nat) {
    match g
    case Page => (forall k: nat :: NoPageWindow(t, k, n)) && forall k: nat :: !FreeWindow(t.l1, k, 1)
    case Section => forall s: nat :: !FreeWindow(t.l1, s, n)
    case Supersection => forall q: nat :: !FreeGroups(t.l1, q, n)
  }

  /** The address is the lowest at which n more units of size g fit: the start of the lowest window of n free sections, or
      of n free aligned groups of sixteen; for pages, of the lowest window in the first second-level table that has one,
      else of the first free section. */
  ghost predicate LowestRoom(t: Table, g: Granularity, n: nat, address: nat) {
    match g
    case Page =>
      if forall k: nat :: NoPageWindow(t, k, n)
      then exists i: nat :: FreeWindow(t.l1, i, 1) && (forall k: nat :: k < i ==> !FreeWindow(t.l1, k, 1)) && address == 0x100000 * i
      else exists i: nat, j: nat :: FirstWindow(t, i, j, n) && address == 0x100000 * i + 0x1000 * j
    case Section =>
      exists i: nat :: FreeWindow(t.l1, i, n) && (forall k: nat :: k < i ==> !FreeWindow(t.l1, k, n)) && address == 0x100000 * i
    case Supersection =>
      exists i: nat :: FreeGroups(t.l1, i, n) && (forall k: nat :: k < i ==> !FreeGroups(t.l1, k, n)) && address == 0x1000000 * i
  }

  lemma ReserveIsLowest(s: Snapshot, r: Outcome<Result<nat>>, q: Snapshot, g: Granularity, n: nat)
    requires ReserveOutcome(s, r, q, g, n) && r.Done? && r.value.Success?
    ensures LowestRoom(s.t, g, n, r.value.value)
  {
    hide At, ReservedPages, AllocSpec, FreeWindow, FreeGroups, MarkSections, MarkPages, NoPageWindow, FirstWindow, SplitSpec;
    match g
    case Page =>
      if forall k: nat :: NoPageWindow(s.t, k, n) {
        NewTableIsFirst(s.a, s.t, r, q.a, q.t, n);
      }
    case Section =>
    case Supersection =>
  }

  lemma NewTableIsFirst(a: FrameState, t: Table, r: Outcome<Result<nat>>, b: FrameState, u: Table, n: nat)
    requires NewTableFit(a, t, r, b, u, n) && r.Done? && r.value.Success?
    ensures exists i: nat ::
              FreeWindow(t.l1, i, 1) && (forall k: nat :: k < i ==> !FreeWindow(t.l1, k, 1)) && r.value.value == 0x100000 * i
  {
    hide NewTableAt, FreeWindow;
    var i: nat :| FreeWindow(t.l1, i, 1) && (forall k: nat :: k < i ==> !FreeWindow(t.l1, k, 1)) && NewTableAt(a, t, r, b, u, n, i);
    NewTableMeans(a, t, r, b, u, n, i);
  }

  /** An unplaced reservation fails exactly when there is no room, and then nothing has changed. */
  lemma ReserveFailsIffNoRoom(s: Snapshot, r: Outcome<Result<nat>>, q: Snapshot, g: Granularity, n: nat)
    requires ReserveOutcome(s, r, q, g, n)
    ensures r == Done(Failure) <==> NoRoom(s.t, g, n)
    ensures r == Done(Failure) ==> q == s
    ensures r.Panicked? ==> r.code == OutOfMemory
  {
    hide At, ReservedPages, AllocSpec, FreeWindow, FreeGroups, MarkSections, MarkPages, NoPageWindow, FirstWindow;
  }

  /** The sections that hold one of the pages v .. v + n, and no others, have stopped being free. */
  ghost predicate Taken(t: Table, q: Table, v: nat, n: nat) {
    |q.l1| == |t.l1| && forall x: nat :: x < |t.l1| ==> (q.l1[x].DFree? <==> t.l1[x].DFree? && !Meets(x, v, n))
  }

  lemma PlacedTakes(s: Snapshot, r: Outcome<Result<nat>>, q: Snapshot, v: nat, n: nat)
    requires ReserveAtOutcome(s, r, q, Page, v, n) && r.Done? && r.value.Success?
    ensures Taken(s.t, q.t, v, n)
  {
    hide At, AllocRun, AllFree;
    forall x: nat | x < |s.t.l1| ensures |q.t.l1| == |s.t.l1| && (q.t.l1[x].DFree? <==> s.t.l1[x].DFree? && !Meets(x, v, n)) {
      assert n > 0 ==> SectionAfter(s.t.l1[x], q.t.l1[x], Meets(x, v, n));
    }
  }

  // ---------------------------------------------------------------- panics

  /** The allocator after a placed reservation of units that can be reserved, unless it runs out of memory for the
      second-level tables. */
  ghost function AfterReserveAt(a: FrameState, t: Table, g: Granularity, v: nat, n: nat): Option<FrameState> {
    if g == Page && v + n <= PageCount(t) then
      match AllocRun(a, 1, SplitsNeeded(t, v, n))
      case None => None
      case Some(x) => Some(x.after)
    else Some(a)
  }

  /** The allocator after an unplaced reservation that there is room for. */
  ghost function AfterReserve(a: FrameState, t: Table, g: Granularity, n: nat): Option<FrameState> {
    if g == Page && forall k: nat :: NoPageWindow(t, k, n) then
      match AllocSpec(a, 1)
      case None => None
      case Some(x) => Some(x.after)
    else Some(a)
  }

  /** How a reservation that leaves the allocator in the given state, followed by an allocation of its n units, panics. */
  ghost function BackingPanic(b: Option<FrameState>, counted: bool, g: Granularity, n: nat): Option<PanicCode> {
    match b
    case None => Some(OutOfMemory)
    case Some(a) =>
      if !counted then Some(AllocationInNonReferenceCountedTable)
      else if AllocRun(a, Span(g, 1), n).None? then Some(OutOfMemory)
      else None
  }

  /** A placed reservation panics exactly when it is possible but cannot have its second-level tables. */
  lemma PlacedPanics(s: Snapshot, r: Outcome<Result<nat>>, q: Snapshot, g: Granularity, v: nat, n: nat)
    requires ReserveAtOutcome(s, r, q, g, v, n)
    ensures r.Panic() == if Placeable(s.t, g, v, n) && AfterReserveAt(s.a, s.t, g, v, n).None? then Some(OutOfMemory) else None
    ensures r.Done? && r.value.Success? ==> AfterReserveAt(s.a, s.t, g, v, n) == Some(q.a)
  {
    hide ReservedPages, MarkSections, FreeWindow, At;
    NoneFree(s.t, v);
  }

  /** An unplaced reservation panics exactly when only a new second-level table would do and there is no frame for it. */
  lemma UnplacedPanics(s: Snapshot, r: Outcome<Result<nat>>, q: Snapshot, g: Granularity, n: nat)
    requires ReserveOutcome(s, r, q, g, n)
    ensures r.Panic() == if !NoRoom(s.t, g, n) && AfterReserve(s.a, s.t, g, n).None? then Some(OutOfMemory) else None
    ensures r.Done? && r.value.Success? ==> AfterReserve(s.a, s.t, g, n) == Some(q.a)
  {
    hide At, ReservedPages, AllocSpec, FreeWindow, FreeGroups, MarkSections, MarkPages, NoPageWindow, FirstWindow;
    FreeWindowIsFree(s.t.l1);
  }

  lemma FreeWindowIsFree(l1: seq<Desc>)
    ensures forall i: nat :: FreeWindow(l1, i, 1) ==> i < |l1| && l1[i].DFree?
  {
  }

  lemma LeaseFromBase(t: Table, q: Table, g: Granularity, v: nat, n: nat)
    requires LeaseEffect(t, q, g, v, n)
    ensures LeaseEffect(t, q, g, UnitBase(g, v), n)
  {
    hide At;
    UnitBaseStep(g, 0, UnitIndex(g, v));
    UnitBaseFacts(g, v);
    assert UnitBase(g, UnitBase(g, v)) == UnitBase(g, v);
  }
}
