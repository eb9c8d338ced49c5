/** Threads that share one page table. Each half of reserve_allocate holds the table's lock for itself, so other threads'
    halves may come between a thread's reservation and its allocation. */
module Threads {
  import opened Bits
  import opened Outcomes
  import opened Descriptors
  import opened AddressSpace
  import opened Frames
  import opened Evolution
  import opened Reservation
  import opened Leasing
  import opened Allocation

  /** A range that a thread has reserved, and whether it has been through allocate. */
  datatype Hold = Hold(owner: nat, g: Granularity, v: nat, n: nat, done: bool)

  /** The shared table and every range reserved so far. */
  datatype State = State(t: Table, holds: seq<Hold>)

  datatype Event =
    | Reserves(owner: nat, g: Granularity, v: nat, n: nat)
    | Refused(owner: nat)
    | Allocates(owner: nat, i: nat, ok: bool)

  predicate WfTable(t: Table) {
    WfDescs(t) && |t.l1| % 16 == 0
  }

  /** The effect of the allocating half on the table, whatever frames the allocator grants in the meantime: as many
      leading units as can be committed are, and the result says whether that was all of them. */
  ghost predicate AllocateEffect(t: Table, q: Table, g: Granularity, v: nat, n: nat, ok: bool) {
    && (ok <==> Ready(t, g, v, n) == n)
    && exists ps: seq<nat> :: |ps| == Ready(t, g, v, n) && (forall k :: 0 <= k < |ps| ==> ps[k] < 0x100000)
                              && q == CommitRun(t, g, v, ps)
  }

  ghost predicate Step(s: State, e: Event, x: State) {
    && WfTable(x.t)
    && match e
       case Reserves(owner, g, v, n) =>
         n > 0 && LeaseEffect(s.t, x.t, g, v, n) && x.holds == s.holds + [Hold(owner, g, v, n, false)]
       case Refused(_) => x == s
       case Allocates(owner, i, ok) =>
         && i < |s.holds| && s.holds[i].owner == owner && !s.holds[i].done
         && AllocateEffect(s.t, x.t, s.holds[i].g, s.holds[i].v, s.holds[i].n, ok)
         && x.holds == s.holds[i := s.holds[i].(done := true)]
  }

  /** Page u belongs to hold h. */
  predicate Owns(h: Hold, u: nat) {
    InUnits(h.g, h.v, h.n, u)
  }

  /** Every page of a hold is in the table, and reserved at the hold's granularity until it is committed. */
  ghost predicate HoldOk(t: Table, h: Hold) {
    && UnitBase(h.g, h.v) + Span(h.g, h.n) <= PageCount(t)
    && forall u :: 0 <= u < PageCount(t) && Owns(h, u) ==>
         if h.done then At(t, u).Committed? else At(t, u) == Reserved(Lease(h.g))
  }

  ghost predicate AllHoldsOk(s: State) {
    forall i :: 0 <= i < |s.holds| ==> HoldOk(s.t, s.holds[i])
  }

  ghost predicate Disjoint(s: State) {
    forall i, k, u: nat :: 0 <= i < k < |s.holds| && Owns(s.holds[i], u) ==> !Owns(s.holds[k], u)
  }

  ghost predicate Inv(s: State) {
    WfTable(s.t) && AllHoldsOk(s) && Disjoint(s)
  }

  /** Allocating for one's own reservation always succeeds. */
  lemma AllocationSucceeds(s: State, e: Event, x: State)
    requires Inv(s) && Step(s, e, x) && e.Allocates?
    ensures e.ok
  {
    hide At;
    var h := s.holds[e.i];
    assert HoldOk(s.t, h);
    LeaseReady(s.t, h.g, h.v, h.n);
  }

  lemma ReservedKeeps(s: State, e: Event, x: State)
    requires Inv(s) && Step(s, e, x) && e.Reserves?
    ensures Inv(x)
  {
    hide At, WfDescs, InUnits;
    var h := Hold(e.owner, e.g, e.v, e.n, false);
    forall i | 0 <= i < |s.holds|
      ensures HoldOk(x.t, s.holds[i])
      ensures forall u: nat :: Owns(s.holds[i], u) ==> !Owns(h, u)
    {
      assert HoldOk(s.t, s.holds[i]);
      forall u: nat | Owns(s.holds[i], u) ensures u < PageCount(s.t) && !Owns(h, u) {
        OwnsInTable(s.t, s.holds[i], u);
      }
    }
  }

  lemma OwnsInTable(t: Table, h: Hold, u: nat)
    requires HoldOk(t, h) && Owns(h, u)
    ensures u < PageCount(t)
  {
  }

  lemma AllocatesKeeps(s: State, e: Event, x: State)
    requires Inv(s) && Step(s, e, x) && e.Allocates?
    ensures Inv(x)
  {
    hide At, WfDescs, InUnits, CommitRun;
    var h := s.holds[e.i];
    assert HoldOk(s.t, h);
    AllocationSucceeds(s, e, x);
    var ps: seq<nat> :| |ps| == Ready(s.t, h.g, h.v, h.n) && (forall k :: 0 <= k < |ps| ==> ps[k] < 0x100000)
                        && x.t == CommitRun(s.t, h.g, h.v, ps);
    LeaseReady(s.t, h.g, h.v, h.n);
    CommitRunAt(s.t, h.g, h.v, ps);
    forall i | 0 <= i < |x.holds| ensures HoldOk(x.t, x.holds[i]) {
      assert HoldOk(s.t, s.holds[i]);
      forall u | 0 <= u < PageCount(x.t) && Owns(x.holds[i], u)
        ensures if x.holds[i].done then At(x.t, u).Committed? else At(x.t, u) == Reserved(Lease(x.holds[i].g))
      {
        assert i != e.i ==> !Owns(h, u);
        RunOwns(s.t, x.t, h, ps, u);
      }
    }
  }

  lemma RunOwns(t: Table, q: Table, h: Hold, ps: seq<nat>, u: nat)
    requires RunEffect(t, q, h.g, h.v, ps) && |ps| == h.n && u < PageCount(t)
    ensures if Owns(h, u) then At(q, u).Committed? else At(q, u) == At(t, u)
  {
    hide At;
    assert At(q, u) == RunState(t, h.g, h.v, ps, u);
    if UnitBase(h.g, h.v) <= u {
      UnitIndexFacts(h.g, u - UnitBase(h.g, h.v), h.n);
    }
  }

  lemma StepKeeps(s: State, e: Event, x: State)
    requires Inv(s) && Step(s, e, x)
    ensures Inv(x)
    ensures e.Allocates? ==> e.ok
  {
    hide Inv;
    match e
    case Reserves(_, _, _, _) => ReservedKeeps(s, e, x);
    case Refused(_) =>
    case Allocates(_, _, _) =>
      AllocatesKeeps(s, e, x);
      AllocationSucceeds(s, e, x);
  }

  // ---------------------------------------------------------------- every interleaving

  ghost predicate Run(ss: seq<State>, es: seq<Event>) {
    |ss| == |es| + 1 && forall i :: 0 <= i < |es| ==> Step(ss[i], es[i], ss[i + 1])
  }

  lemma {:induction false} RunKeeps(ss: seq<State>, es: seq<Event>, i: nat)
    requires Run(ss, es) && ss[0].holds == [] && WfTable(ss[0].t) && i < |ss|
    ensures Inv(ss[i])
  {
    hide Step;
    if i > 0 {
      RunKeeps(ss, es, i - 1);
      StepKeeps(ss[i - 1], es[i - 1], ss[i]);
    }
  }

  /** Under every interleaving, no two threads ever hold the same page, and no allocating half ever fails: the calls of
      reserve_allocate that fail are those whose reserving half was refused. */
  lemma LeasesAreSafe(ss: seq<State>, es: seq<Event>, i: nat, a: nat, b: nat, u: nat)
    requires Run(ss, es) && ss[0].holds == [] && WfTable(ss[0].t) && i < |ss|
    ensures a < |ss[i].holds| && b < |ss[i].holds| && a != b && Owns(ss[i].holds[a], u) ==> !Owns(ss[i].holds[b], u)
    ensures i < |es| && es[i].Allocates? ==> es[i].ok
  {
    RunKeeps(ss, es, i);
    if i < |es| {
      assert Step(ss[i], es[i], ss[i + 1]);
      StepKeeps(ss[i], es[i], ss[i + 1]);
    }
  }

  // ---------------------------------------------------------------- the halves are the table's own operations

  /** A placed reservation, as the table performs it, is a Reserves or a Refused step. The range held starts at the address
      returned, which is what the allocating half is called with. */
  lemma ReserveAtIsStep(s: Snapshot, r: Outcome<Result<nat>>, q: Snapshot, g: Granularity, v: nat, n: nat, owner: nat, holds: seq<Hold>)
    requires ReserveAtOutcome(s, r, q, g, v, n) && n > 0 && r.Done? && WfTable(q.t)
    ensures if r.value.Success?
            then var u := r.value.value / PAGE_SIZE;
                 Step(State(s.t, holds), Reserves(owner, g, u, n), State(q.t, holds + [Hold(owner, g, u, n, false)]))
            else Step(State(s.t, holds), Refused(owner), State(q.t, holds))
  {
    hide ReserveAtOutcome, LeaseEffect, WfTable;
    if r.value.Success? {
      ReserveAtLeases(s, r, q, g, v, n);
      LeaseFromBase(s.t, q.t, g, v, n);
      DivMod(PAGE_SIZE, UnitBase(g, v), 0);
    } else {
      PlacedIffPlaceable(s, r, q, g, v, n);
    }
  }

  lemma ReserveIsStep(s: Snapshot, r: Outcome<Result<nat>>, q: Snapshot, g: Granularity, n: nat, owner: nat, holds: seq<Hold>)
    requires Coherent(s) && ReserveOutcome(s, r, q, g, n) && n > 0 && (g == Page ==> n <= 0x100) && r.Done? && WfTable(q.t)
    ensures if r.value.Success?
            then var v := r.value.value / PAGE_SIZE;
                 Step(State(s.t, holds), Reserves(owner, g, v, n), State(q.t, holds + [Hold(owner, g, v, n, false)]))
            else Step(State(s.t, holds), Refused(owner), State(q.t, holds))
  {
    if r.value.Success? {
      ReserveLeases(s, r, q, g, n);
    } else {
      ReserveFailsIffNoRoom(s, r, q, g, n);
    }
  }

  /** An allocation, as the table performs it, is an Allocates step. */
  lemma AllocateIsStep(a: FrameState, t: Table, r: Outcome<bool>, b: FrameState, q: Table, i: nat, holds: seq<Hold>)
    requires i < |holds| && !holds[i].done && WfTable(q) && r.Done? && Scannable(a, Span(holds[i].g, 1))
    requires Allocated(a, t, r, b, q, holds[i].g, holds[i].v, holds[i].n)
    ensures Step(State(t, holds), Allocates(holds[i].owner, i, r.value), State(q, holds[i := holds[i].(done := true)]))
  {
    hide WfDescs, CommitRun, AllocateEffect, Scannable, FreshBlocks, Ready;
    var h := holds[i];
    AllocatedEffect(a, t, r, b, q, h.g, h.v, h.n);
  }

  lemma AllocatedEffect(a: FrameState, t: Table, r: Outcome<bool>, b: FrameState, q: Table, g: Granularity, v: nat, n: nat)
    requires Scannable(a, Span(g, 1)) && Allocated(a, t, r, b, q, g, v, n) && r.Done?
    ensures AllocateEffect(t, q, g, v, n, r.value)
  {
    hide WfDescs, CommitRun, Scannable, FreshBlocks, AllocRun, Committable, AllocateEffect, Ready, Span;
    ScannableFrames(a, Span(g, 1));
    var c := Ready(t, g, v, n);
    var k := if c < n then c + 1 else n;
    RunFresh(a, Span(g, 1), k);
    var x := AllocRun(a, Span(g, 1), k).value;
    BlocksBelow(a.counts, Span(g, 1), x.frames);
    CommittedEffect(t, q, g, v, n, r.value, x.frames[..c]);
  }

  lemma CommittedEffect(t: Table, q: Table, g: Granularity, v: nat, n: nat, ok: bool, ps: seq<nat>)
    requires |ps| == Ready(t, g, v, n) && (forall k :: 0 <= k < |ps| ==> ps[k] < 0x100000) && q == CommitRun(t, g, v, ps)
    requires ok <==> Ready(t, g, v, n) == n
    ensures AllocateEffect(t, q, g, v, n, ok)
  {
    hide CommitRun, Ready;
  }

  lemma ScannableFrames(a: FrameState, size: nat)
    requires Scannable(a, size)
    ensures |a.counts| < 0x100000
  {
  }
}
