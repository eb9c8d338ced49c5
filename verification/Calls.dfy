/** The calls that change a page table: what each demands, what it does, and how it panics. */
module Calls {
  import opened Outcomes
  import opened Descriptors
  import opened AddressSpace
  import opened Frames
  import opened Evolution
  import opened Reservation
  import opened Leasing
  import opened Allocation
  import opened Mapping
  import opened PageTables

  /** A call of one of the table operations that change a table. */
  datatype Call =
    | CallReserve(units: nat, g: Granularity)
    | CallReserveAt(address: nat, units: nat, g: Granularity)
    | CallAllocate(va: nat, units: nat, g: Granularity)
    | CallMap(va: nat, pa: nat, units: nat, g: Granularity)

  /** What the source demands of the caller of each operation. A map on a table that counts references must keep the
      books: see Mapping.MapBooks. */
  ghost predicate Callable(s: Snapshot, c: Call) {
    match c
    case CallReserve(n, g) => 0 < n && (g == Page ==> n <= 0x100)
    case CallReserveAt(address, n, g) => Addressable(g, address / PAGE_SIZE, n)
    case CallAllocate(va, n, g) => Aligned(|s.a.counts|, Span(g, 1)) && Addressable(g, va / PAGE_SIZE, n)
    case CallMap(va, pa, n, g) =>
      && Addressable(g, va / PAGE_SIZE, n) && RangeMappable(s.t, |s.a.counts|, g, pa / PAGE_SIZE, n)
      && MapKeepsBooks(s, g, va / PAGE_SIZE, pa / PAGE_SIZE, n)
  }

  /** Whether a call that gave r succeeded. */
  function Flag(r: Outcome<Result<nat>>): Outcome<bool> {
    match r
    case Panicked(c) => Panicked(c)
    case Done(x) => Done(x.Success?)
  }

  /** What a call in state s gives and leaves behind. A reservation gives the address reserved; an allocation or a map that
      succeeds gives back its own. */
  ghost predicate CallEffect(s: Snapshot, c: Call, r: Outcome<Result<nat>>, q: Snapshot) {
    match c
    case CallReserve(n, g) => ReserveOutcome(s, r, q, g, n)
    case CallReserveAt(address, n, g) => ReserveAtOutcome(s, r, q, g, address / PAGE_SIZE, n)
    case CallAllocate(va, n, g) =>
      && (r.Done? && r.value.Success? ==> r.value.value == va)
      && if s.t.counted then Allocated(s.a, s.t, Flag(r), q.a, q.t, g, va / PAGE_SIZE, n)
         else r == Panicked(AllocationInNonReferenceCountedTable)
    case CallMap(va, pa, n, g) =>
      && (r.Done? && r.value.Success? ==> r.value.value == va)
      && MapOutcome(s, Flag(r), q, g, va / PAGE_SIZE, pa / PAGE_SIZE, n)
  }

  /** The panic of a call in state s, if it panics. */
  ghost function CallPanic(s: Snapshot, c: Call): Option<PanicCode> {
    match c
    case CallReserve(n, g) => if !NoRoom(s.t, g, n) && AfterReserve(s.a, s.t, g, n).None? then Some(OutOfMemory) else None
    case CallReserveAt(address, n, g) =>
      var v := address / PAGE_SIZE;
      if Placeable(s.t, g, v, n) && AfterReserveAt(s.a, s.t, g, v, n).None? then Some(OutOfMemory) else None
    case CallAllocate(va, n, g) =>
      var c := Ready(s.t, g, va / PAGE_SIZE, n);
      if !s.t.counted then Some(AllocationInNonReferenceCountedTable)
      else if AllocRun(s.a, Span(g, 1), if c < n then c + 1 else n).None? then Some(OutOfMemory)
      else None
    case CallMap(va, pa, n, g) =>
      if s.t.counted && Ready(s.t, g, va / PAGE_SIZE, n) == n && FreeInRun(s.a, pa / PAGE_SIZE, Span(g, n))
      then Some(AddRefToUnallocatedPage) else None
  }

  lemma CallPanics(s: Snapshot, c: Call, r: Outcome<Result<nat>>, q: Snapshot)
    requires CallEffect(s, c, r, q)
    ensures r.Panic() == CallPanic(s, c)
  {
    hide ReserveOutcome, ReserveAtOutcome, NoRoom, Placeable, AfterReserve, AfterReserveAt, AllocRun, CommitRun, FreeInRun, Acquired;
    match c
    case CallReserve(n, g) => UnplacedPanics(s, r, q, g, n);
    case CallReserveAt(address, n, g) => PlacedPanics(s, r, q, g, address / PAGE_SIZE, n);
    case CallAllocate(va, n, g) =>
    case CallMap(va, pa, n, g) =>
  }

  /** Every call but a map commits pages to fresh memory only. */
  lemma CallCommitsFresh(s: Snapshot, c: Call, r: Outcome<Result<nat>>, q: Snapshot)
    requires Coherent(s) && WfAlloc(s.a) && Callable(s, c) && CallEffect(s, c, r, q) && r.Done? && !c.CallMap?
    ensures FreshCommits(s, q)
  {
    hide Coherent, ReserveOutcome, ReserveAtOutcome, WfAlloc, Allocated, FreshCommits, Aligned;
    match c
    case CallReserve(n, g) => ReserveCommitsNothing(s, r, q, g, n);
    case CallReserveAt(address, n, g) => ReserveAtCommitsNothing(s, r, q, g, address / PAGE_SIZE, n);
    case CallAllocate(va, n, g) =>
      UnitSize(g);
      AllocateCommitsFresh(s, Flag(r), q, g, va / PAGE_SIZE, n);
    case CallMap(va, pa, n, g) =>
  }

  /** Makes a call. */
  method RunCall(t: PageTable, c: Call) returns (r: Outcome<Result<nat>>)
    requires t.Valid() && Callable(t.Snap(), c)
    modifies t`tab, t.alloc, t.alloc.counts, t.alloc.mem
    ensures CallEffect(old(t.Snap()), c, r, t.Snap())
    ensures r.Done? ==> t.Valid() && Evolves(old(t.Snap()), t.Snap())
    ensures r.Done? && (!c.CallMap? || !t.counted) ==> OnlyFreshFrames(old(t.Snap()), t.Snap())
  {
    hide Coherent, Evolves, OnlyFreshFrames, WfAlloc, NonZero, Aligned, ReserveOutcome, ReserveAtOutcome, Allocated, MapOutcome,
      MapKeepsBooks, RangeMappable, Addressable;
    match c {
      case CallReserve(n, g) =>
        r := t.Reserve(n, g);
      case CallReserveAt(address, n, g) =>
        r := t.ReserveAt(address, n, g);
      case CallAllocate(va, n, g) =>
        var x := t.Allocate(va, n, g);
        r := Answer(x, va);
      case CallMap(va, pa, n, g) =>
        var x := t.Map(va, pa, n, g);
        r := Answer(x, va);
    }
  }

  function Answer(x: Outcome<bool>, va: nat): (r: Outcome<Result<nat>>)
    ensures Flag(r) == x && (r.Done? && r.value.Success? ==> r.value.value == va)
  {
    match x
    case Panicked(c) => Panicked(c)
    case Done(ok) => Done(if ok then Success(va) else Failure)
  }
}
