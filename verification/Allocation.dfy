/** What allocating physical memory for a range of units does. */
module Allocation {
  import opened Outcomes
  import opened Descriptors
  import opened AddressSpace
  import opened Frames
  import opened Memory
  import opened Evolution
  import opened Reservation
  import opened Leasing

  /** After the first i units have been allocated and committed. */
  ghost predicate Allocating(a0: FrameState, t0: Table, a: FrameState, t: Table, g: Granularity, v: nat, i: nat) {
    && WfDescs(t0) && |t0.l1| % 16 == 0
    && AllocRun(a0, Span(g, 1), i).Some?
    && var x := AllocRun(a0, Span(g, 1), i).value;
       && x.after == a && |x.frames| == i && t == CommitRun(t0, g, v, x.frames)
       && (forall k :: 0 <= k < i ==> x.frames[k] < 0x100000 && Committable(t0, g, v + Span(g, k)))
  }

  /** The outcome of allocate for a table that counts references: as many units as can be committed are, and one more
      block is allocated and given back when a unit cannot be; a panic exactly when those allocations cannot be made. */
  ghost predicate Allocated(a0: FrameState, t0: Table, r: Outcome<bool>, a: FrameState, t: Table, g: Granularity, v: nat, n: nat) {
    var c := Ready(t0, g, v, n);
    match AllocRun(a0, Span(g, 1), if c < n then c + 1 else n)
    case None => r == Panicked(OutOfMemory)
    case Some(x) =>
      && r == Done(c == n) && c <= |x.frames|
      && t == CommitRun(t0, g, v, x.frames[..c])
      && AllocRun(a0, Span(g, 1), c).Some?
      && a == x.after.(counts := AllocRun(a0, Span(g, 1), c).value.after.counts)
  }

  lemma AllocatingStart(a: FrameState, t: Table, g: Granularity, v: nat)
    requires WfDescs(t) && |t.l1| % 16 == 0
    ensures Allocating(a, t, a, t, g, v, 0)
  {
  }

  /** The next unit can be committed exactly when it could be at the start. */
  lemma AllocatingNext(a0: FrameState, t0: Table, a: FrameState, t: Table, g: Granularity, v: nat, i: nat)
    requires Allocating(a0, t0, a, t, g, v, i)
    ensures Committable(t, g, v + Span(g, i)) <==> Committable(t0, g, v + Span(g, i))
  {
    hide Committable, WfDescs, AllocRun;
    var ps := AllocRun(a0, Span(g, 1), i).value.frames;
    CommitRunAt(t0, g, v, ps);
    StillCommittable(t0, g, v, ps, i);
  }

  lemma AllocatingStep(a0: FrameState, t0: Table, a: FrameState, t: Table, g: Granularity, v: nat, i: nat, x: Grant)
    requires Allocating(a0, t0, a, t, g, v, i) && AllocSpec(a, Span(g, 1)) == Some(x) && x.frame < 0x100000
    requires Committable(t0, g, v + Span(g, i))
    ensures Allocating(a0, t0, x.after, Commit(t, g, v + Span(g, i), x.frame), g, v, i + 1)
  {
    hide Committable, WfDescs, AllocSpec, AllocRun, Commit, CommitRun, Span;
    var ps := AllocRun(a0, Span(g, 1), i).value.frames;
    RunSnoc(a0, Span(g, 1), i, x);
    CommitRunSnoc(t0, g, v, ps, x.frame);
  }

  /** A run of k allocations is a chain of k grants: it yields their frames in order and the last state, and there is none
      exactly when the chain breaks off. */
  lemma {:induction false} RunIsChain(a: FrameState, size: nat, k: nat) returns (states: seq<FrameState>)
    ensures 0 < |states| <= k + 1 && states[0] == a
    ensures AllocRun(a, size, k).Some? ==>
              && var x := AllocRun(a, size, k).value;
                 |states| == k + 1 && |x.frames| == k && states[k] == x.after
                 && forall i :: 0 <= i < k ==> AllocSpec(states[i], size) == Some(Grant(states[i + 1], x.frames[i]))
    ensures AllocRun(a, size, k).None? ==>
              && |states| <= k && AllocSpec(states[|states| - 1], size).None?
              && forall i :: 0 <= i < |states| - 1 ==>
                   AllocSpec(states[i], size).Some? && AllocSpec(states[i], size).value.after == states[i + 1]
  {
    hide AllocSpec;
    if k == 0 {
      states := [a];
    } else {
      states := RunIsChain(a, size, k - 1);
      if AllocRun(a, size, k).Some? {
        states := states + [AllocRun(a, size, k).value.after];
      } else if AllocRun(a, size, k - 1).Some? {
        var x := AllocRun(a, size, k - 1).value;
        forall i | 0 <= i < k - 1 ensures AllocSpec(states[i], size).Some? && AllocSpec(states[i], size).value.after == states[i + 1] {
          assert AllocSpec(states[i], size) == Some(Grant(states[i + 1], x.frames[i]));
        }
      }
    }
  }

  lemma RunSnoc(a: FrameState, size: nat, i: nat, x: Grant)
    requires AllocRun(a, size, i).Some? && AllocSpec(AllocRun(a, size, i).value.after, size) == Some(x)
    ensures AllocRun(a, size, i + 1) == Some(Grants(x.after, AllocRun(a, size, i).value.frames + [x.frame]))
  {
  }

  lemma RunFrames(a0: FrameState, t0: Table, a: FrameState, t: Table, g: Granularity, v: nat, i: nat, x: Grant)
    requires Allocating(a0, t0, a, t, g, v, i) && AllocSpec(a, Span(g, 1)) == Some(x)
    ensures AllocRun(a0, Span(g, 1), i).Some?
    ensures AllocRun(a0, Span(g, 1), i + 1) ==
            Some(Grants(x.after, AllocRun(a0, Span(g, 1), i).value.frames + [x.frame]))
  {
    hide AllocSpec, AllocRun, CommitRun, WfDescs;
    RunSnoc(a0, Span(g, 1), i, x);
  }

  lemma StartFilled(s: Snapshot, g: Granularity)
    ensures AllocRun(s.a, Span(g, 1), 0) == Some(Grants(s.a, [])) && FilledSince(s, s, [])
  {
    FilledNothing(s);
  }

  /** Every unit was committed. */
  lemma AllocatingDone(a0: FrameState, t0: Table, a: FrameState, t: Table, g: Granularity, v: nat, n: nat)
    requires Allocating(a0, t0, a, t, g, v, n)
    ensures Allocated(a0, t0, Done(true), a, t, g, v, n)
  {
    hide Committable, WfDescs, CommitRun, AllocRun;
    ReadyIs(t0, g, v, n, n);
    var x := AllocRun(a0, Span(g, 1), n).value;
    assert x.frames[..n] == x.frames;
  }

  /** Unit i could not be committed. */
  lemma AllocatingStops(a0: FrameState, t0: Table, a: FrameState, t: Table, g: Granularity, v: nat, i: nat, n: nat, x: Grant)
    requires Allocating(a0, t0, a, t, g, v, i) && AllocSpec(a, Span(g, 1)) == Some(x) && i < n
    requires !Committable(t0, g, v + Span(g, i))
    ensures Allocated(a0, t0, Done(false), Returned(a, x), t, g, v, n)
  {
    hide Committable, WfDescs, CommitRun, AllocSpec;
    ReadyIs(t0, g, v, n, i);
    var y := AllocRun(a0, Span(g, 1), i).value;
    assert (y.frames + [x.frame])[..i] == y.frames;
  }

  /** Unit i's block could not be allocated. */
  lemma AllocatingFails(a0: FrameState, t0: Table, a: FrameState, t: Table, g: Granularity, v: nat, i: nat, n: nat,
                        b: FrameState, u: Table)
    requires Allocating(a0, t0, a, t, g, v, i) && AllocSpec(a, Span(g, 1)).None? && i < n
    ensures Allocated(a0, t0, Panicked(OutOfMemory), b, u, g, v, n)
  {
    hide Committable, WfDescs, CommitRun, AllocSpec;
    var c := Ready(t0, g, v, n);
    ReadyMeans(t0, g, v, n);
    assert c >= i;
    RunStaysNone(a0, Span(g, 1), i + 1, if c < n then c + 1 else n);
  }

  // ---------------------------------------------------------------- fresh frames

  /** Blocks of the given size at the frames ps are aligned, disjoint, inside memory, and free. */
  ghost predicate FreshBlocks(c: seq<count>, size: nat, ps: seq<nat>) {
    && (forall i :: 0 <= i < |ps| ==> ps[i] > 0 && Aligned(ps[i], size) && BlockFree(c, ps[i], size))
    && (forall i, j :: 0 <= i < j < |ps| ==> ps[i] + size <= ps[j] || ps[j] + size <= ps[i])
  }

  /** The allocator never grants a block twice in a run of allocations. */
  lemma {:induction false} RunFresh(a: FrameState, size: nat, k: nat)
    requires Scannable(a, size) && AllocRun(a, size, k).Some?
    ensures var x := AllocRun(a, size, k).value;
            && |x.frames| == k && Scannable(x.after, size) && |x.after.counts| == |a.counts| && FreshBlocks(a.counts, size, x.frames)
            && (forall f :: 0 <= f < |a.counts| ==> a.counts[f] <= x.after.counts[f])
            && (forall i, f :: 0 <= i < k && x.frames[i] <= f < x.frames[i] + size ==> x.after.counts[f] > 0)
  {
    if k != 0 {
      RunFresh(a, size, k - 1);
      var y := AllocRun(a, size, k - 1).value;
      AllocFacts(y.after, size);
      FreshSnoc(a.counts, y.after.counts, size, y.frames, AllocSpec(y.after, size).value.frame);
    }
  }

  lemma FreshSnoc(c: seq<count>, d: seq<count>, size: nat, ps: seq<nat>, p: nat)
    requires |d| == |c| && FreshBlocks(c, size, ps) && p > 0 && Aligned(p, size) && BlockFree(d, p, size) && BlockSize(size)
    requires forall f :: 0 <= f < |c| ==> c[f] <= d[f]
    requires forall i, f :: 0 <= i < |ps| && ps[i] <= f < ps[i] + size ==> d[f] > 0
    ensures FreshBlocks(c, size, ps + [p])
    ensures forall i, f :: 0 <= i < |ps + [p]| && (ps + [p])[i] <= f < (ps + [p])[i] + size ==> Take(d, p, size)[f] > 0
    ensures forall f :: 0 <= f < |c| ==> c[f] <= Take(d, p, size)[f]
  {
    forall i | 0 <= i < |ps| ensures ps[i] + size <= p || p + size <= ps[i] {
      BlocksApart(d, ps[i], p, size);
    }
  }

  lemma BlocksApart(d: seq<count>, x: nat, p: nat, size: nat)
    requires size > 0 && x + size <= |d| && BlockFree(d, p, size) && forall f :: x <= f < x + size ==> d[f] > 0
    ensures x + size <= p || p + size <= x
  {
    var y := d[if x <= p then p else x];
  }

  /** q is s with the n units of free pages from page v on backed by fresh blocks ps, and nothing else translated. */
  ghost predicate Backed(s: Snapshot, q: Snapshot, g: Granularity, v: nat, ps: seq<nat>) {
    && SameTable(s.t, q.t)
    && FreshBlocks(s.a.counts, Span(g, 1), ps)
    && (forall u :: 0 <= u < PageCount(s.t) ==> At(q.t, u) == RunState(s.t, g, v, ps, u))
    && (forall u :: 0 <= u < PageCount(s.t) && InUnits(g, v, |ps|, u) ==> At(s.t, u) == Free)
  }

  /** Memory for a lease is never refused: allocating the leased units either backs them all or runs out of memory. */
  lemma LeaseAllocates(s: Snapshot, q: Snapshot, r: Outcome<bool>, z: Snapshot, g: Granularity, v: nat, n: nat) returns (ps: seq<nat>)
    requires Coherent(q) && Evolves(s, q) && Scannable(q.a, Span(g, 1))
    requires LeaseEffect(s.t, q.t, g, v, n) || (n == 0 && q.t == s.t)
    requires Allocated(q.a, q.t, r, z.a, z.t, g, v, n)
    ensures r == if AllocRun(q.a, Span(g, 1), n).None? then Panicked(OutOfMemory) else Done(true)
    ensures r == Done(true) ==> |ps| == n && Backed(s, z, g, v, ps) && AllocRun(q.a, Span(g, 1), n) == Some(Grants(z.a, ps))
    ensures r == Done(true) && g == Page ==> SameFree(q.t, z.t)
    ensures r == Done(true) && FilledOutcome(q, z, g, v, n) ==> FilledSince(q, z, ps)
  {
    hide At, Coherent, CommitRun, Committable, AllocRun, FreshBlocks, Evolves, RunState, InUnits, Span, WfDescs, FilledSince;
    CoherentDescs(q);
    LeasedReady(s.t, q.t, g, v, n);
    ps := [];
    if r.Done? {
      RunFresh(q.a, Span(g, 1), n);
      var x := AllocRun(q.a, Span(g, 1), n).value;
      ps := x.frames;
      assert x.frames[..n] == ps;
      BlocksBelow(q.a.counts, Span(g, 1), ps);
      CommitRunAt(q.t, g, v, ps);
      FreshEarlier(s, q, Span(g, 1), ps);
      BackedAfter(s, q.t, z, g, v, ps);
      if g == Page {
        PagesKeepFree(q.t, v, ps);
      }
    }
  }

  /** The same sections are free in t and in q. */
  predicate SameFree(t: Table, q: Table) {
    |q.l1| == |t.l1| && forall x :: 0 <= x < |t.l1| ==> (q.l1[x].DFree? <==> t.l1[x].DFree?)
  }

  /** Committing pages takes no further section. */
  lemma {:induction false} PagesKeepFree(t: Table, v: nat, ps: seq<nat>)
    ensures SameFree(t, CommitRun(t, Page, v, ps))
  {
    if ps != [] {
      PagesKeepFree(t, v, ps[..|ps| - 1]);
    }
  }

  lemma LeasedReady(t: Table, q: Table, g: Granularity, v: nat, n: nat)
    requires LeaseEffect(t, q, g, v, n) || n == 0
    ensures Ready(q, g, v, n) == n && forall k :: 0 <= k < n ==> Committable(q, g, v + Span(g, k))
  {
    hide At, Committable;
    if n > 0 {
      LeaseReady(q, g, v, n);
    }
  }

  lemma BlocksBelow(c: seq<count>, size: nat, ps: seq<nat>)
    requires FreshBlocks(c, size, ps) && |c| < 0x100000
    ensures forall k :: 0 <= k < |ps| ==> ps[k] < 0x100000
  {
  }

  lemma FreshEarlier(s: Snapshot, q: Snapshot, size: nat, ps: seq<nat>)
    requires Evolves(s, q) && FreshBlocks(q.a.counts, size, ps)
    ensures FreshBlocks(s.a.counts, size, ps) && SameTable(s.t, q.t)
  {
    forall i | 0 <= i < |ps| ensures BlockFree(s.a.counts, ps[i], size) {
      assert BlockFree(q.a.counts, ps[i], size);
    }
  }

  lemma BackedAfter(s: Snapshot, t: Table, z: Snapshot, g: Granularity, v: nat, ps: seq<nat>)
    requires LeaseEffect(s.t, t, g, v, |ps|) || (ps == [] && t == s.t)
    requires FreshBlocks(s.a.counts, Span(g, 1), ps) && RunEffect(t, z.t, g, v, ps) && SameTable(t, z.t)
    ensures Backed(s, z, g, v, ps)
  {
    hide At;
    forall u | 0 <= u < PageCount(s.t)
      ensures At(z.t, u) == RunState(s.t, g, v, ps, u)
      ensures InUnits(g, v, |ps|, u) ==> At(s.t, u) == Free
    {
      assert At(z.t, u) == RunState(t, g, v, ps, u);
      if UnitBase(g, v) <= u {
        UnitIndexFacts(g, u - UnitBase(g, v), |ps|);
      }
    }
  }

  // ---------------------------------------------------------------- what becomes committed

  /** Reserving commits nothing. */
  lemma LeaseCommitsNothing(s: Snapshot, q: Snapshot, g: Granularity, v: nat, n: nat)
    requires LeaseEffect(s.t, q.t, g, v, n) || q.t == s.t
    ensures FreshCommits(s, q)
  {
    hide At;
  }

  lemma ReserveAtCommitsNothing(s: Snapshot, r: Outcome<Result<nat>>, q: Snapshot, g: Granularity, v: nat, n: nat)
    requires ReserveAtOutcome(s, r, q, g, v, n) && r.Done?
    ensures FreshCommits(s, q)
  {
    hide ReserveAtOutcome, LeaseEffect, FreshCommits, Placeable;
    PlacedIffPlaceable(s, r, q, g, v, n);
    if n > 0 && r.value.Success? {
      ReserveAtLeases(s, r, q, g, v, n);
    }
    LeaseCommitsNothing(s, q, g, v, n);
  }

  lemma ReserveCommitsNothing(s: Snapshot, r: Outcome<Result<nat>>, q: Snapshot, g: Granularity, n: nat)
    requires Coherent(s) && ReserveOutcome(s, r, q, g, n) && n > 0 && (g == Page ==> n <= 0x100) && r.Done?
    ensures FreshCommits(s, q)
  {
    hide ReserveOutcome, LeaseEffect, FreshCommits, Coherent, NoRoom;
    ReserveFailsIffNoRoom(s, r, q, g, n);
    if r.value.Success? {
      ReserveLeases(s, r, q, g, n);
      LeaseCommitsNothing(s, q, g, r.value.value / PAGE_SIZE, n);
    } else {
      LeaseCommitsNothing(s, q, g, 0, n);
    }
  }

  /** Allocating commits pages to fresh memory only, even when it fails part-way. */
  lemma AllocateCommitsFresh(s: Snapshot, r: Outcome<bool>, q: Snapshot, g: Granularity, v: nat, n: nat)
    requires Coherent(s) && s.t.counted && Scannable(s.a, Span(g, 1)) && Allocated(s.a, s.t, r, q.a, q.t, g, v, n) && r.Done?
    ensures FreshCommits(s, q)
  {
    hide At, Coherent, CommitRun, Committable, AllocRun, FreshBlocks, RunState, WfDescs, FreshAt, Scannable, Span;
    CoherentDescs(s);
    ReadyMeans(s.t, g, v, n);
    var c := Ready(s.t, g, v, n);
    var k := if c < n then c + 1 else n;
    RunFresh(s.a, Span(g, 1), k);
    var ps := AllocRun(s.a, Span(g, 1), k).value.frames[..c];
    SomeFresh(s.a.counts, Span(g, 1), AllocRun(s.a, Span(g, 1), k).value.frames, c);
    BlocksInMemory(s.a, Span(g, 1), ps);
    CommitRunAt(s.t, g, v, ps);
    forall u: nat | u < PageCount(s.t) ensures FreshAt(s, q.t, u) {
      RunCommitsFresh(s, q.t, g, v, ps, u);
    }
  }

  lemma SomeFresh(c: seq<count>, size: nat, ps: seq<nat>, k: nat)
    requires FreshBlocks(c, size, ps) && k <= |ps|
    ensures FreshBlocks(c, size, ps[..k])
  {
    forall i | 0 <= i < k ensures BlockFree(c, ps[..k][i], size) {
      assert BlockFree(c, ps[i], size);
    }
  }

  lemma BlocksInMemory(a: FrameState, size: nat, ps: seq<nat>)
    requires FreshBlocks(a.counts, size, ps) && Scannable(a, size)
    ensures forall k :: 0 <= k < |ps| ==> ps[k] < 0x100000
  {
    BlocksBelow(a.counts, size, ps);
  }

  lemma RunCommitsFresh(s: Snapshot, t: Table, g: Granularity, v: nat, ps: seq<nat>, u: nat)
    requires s.t.counted && u < PageCount(s.t) && FreshBlocks(s.a.counts, Span(g, 1), ps) && RunEffect(s.t, t, g, v, ps)
    ensures PageCount(t) == PageCount(s.t) && FreshAt(s, t, u)
  {
    hide At;
    var b := UnitBase(g, v);
    assert At(t, u) == RunState(s.t, g, v, ps, u);
    if b <= u && UnitIndex(g, u - b) < |ps| {
      var k := UnitIndex(g, u - b);
      UnitIndexFacts(g, u - b, |ps|);
      AlignedUnit(g, ps[k]);
      assert BlockFree(s.a.counts, ps[k], Span(g, 1));
    }
  }

  // ---------------------------------------------------------------- what the blocks hold

  /** From s to q the table keeps its pages, and memory changes in these and in the first frames ps of granted blocks only;
      each of those is full of 0xcc. */
  ghost predicate FilledSince(s: Snapshot, q: Snapshot, ps: seq<nat>) {
    && |q.m| == |s.m| && (forall p: nat :: TableFrame(q.t, p) <==> TableFrame(s.t, p))
    && (forall k :: 0 <= k < |ps| ==> ps[k] < |q.m| && !TableFrame(s.t, ps[k]) && q.m[ps[k]] == FilledRow())
    && (forall p: nat :: p < |q.m| && !TableFrame(s.t, p) && p !in ps ==> q.m[p] == s.m[p])
  }

  lemma FilledNothing(s: Snapshot)
    ensures FilledSince(s, s, [])
  {
  }

  /** One more block filled. */
  lemma FilledThen(s: Snapshot, q: Snapshot, r: Snapshot, ps: seq<nat>, p: nat)
    requires FilledSince(s, q, ps) && FilledSince(q, r, [p])
    ensures FilledSince(s, r, ps + [p])
  {
    hide TableFrame, FilledRow;
    var xs := [p];
    assert xs[0] == p;
    forall k | 0 <= k < |ps| ensures r.m[ps[k]] == FilledRow() {
      assert ps[k] != p ==> ps[k] !in xs;
    }
    forall x: nat | x < |r.m| && !TableFrame(s.t, x) && x !in ps + [p] ensures r.m[x] == s.m[x] {
      assert x !in ps && x !in xs;
    }
  }

  /** The blocks that allocate takes, the one it gives back included, are left full of 0xcc. */
  ghost predicate FilledOutcome(s: Snapshot, q: Snapshot, g: Granularity, v: nat, n: nat) {
    var c := Ready(s.t, g, v, n);
    var x := AllocRun(s.a, Span(g, 1), if c < n then c + 1 else n);
    x.Some? && FilledSince(s, q, x.value.frames)
  }

  lemma FilledDone(s: Snapshot, q: Snapshot, g: Granularity, v: nat, n: nat)
    requires Allocating(s.a, s.t, q.a, q.t, g, v, n) && FilledSince(s, q, AllocRun(s.a, Span(g, 1), n).value.frames)
    ensures FilledOutcome(s, q, g, v, n)
  {
    hide Committable, WfDescs, CommitRun, AllocRun, FilledSince;
    ReadyIs(s.t, g, v, n, n);
  }

  lemma FilledStops(s: Snapshot, q: Snapshot, r: Snapshot, g: Granularity, v: nat, i: nat, n: nat, x: Grant)
    requires Allocating(s.a, s.t, q.a, q.t, g, v, i) && AllocSpec(q.a, Span(g, 1)) == Some(x) && i < n
    requires !Committable(s.t, g, v + Span(g, i))
    requires FilledSince(s, q, AllocRun(s.a, Span(g, 1), i).value.frames) && FilledSince(q, r, [x.frame])
    ensures FilledOutcome(s, r, g, v, n)
  {
    hide Committable, WfDescs, CommitRun, AllocSpec, FilledSince, AllocRun;
    ReadyIs(s.t, g, v, n, i);
    RunSnoc(s.a, Span(g, 1), i, x);
    FilledThen(s, q, r, AllocRun(s.a, Span(g, 1), i).value.frames, x.frame);
  }

  /** From s to z memory changes in the table's pages, and in the frames ps, which are full of 0xcc, only. */
  ghost predicate OnlyFilled(s: Snapshot, z: Snapshot, ps: seq<nat>) {
    |z.m| == |s.m| && forall p: nat :: p < |z.m| && !TableFrame(z.t, p) ==> z.m[p] == if p in ps then FilledRow() else s.m[p]
  }

  lemma QuietThenFilled(s: Snapshot, q: Snapshot, z: Snapshot, ps: seq<nat>)
    requires Quiet(s, q) && FilledSince(q, z, ps)
    ensures OnlyFilled(s, z, ps)
  {
    hide TableFrame, FilledRow;
  }

  /** Every word of each of the frames ps is 0xcccccccc. */
  predicate FullOfFill(m: seq<Row>, ps: seq<nat>) {
    forall k, j :: 0 <= k < |ps| && 0 <= j < 0x400 ==> ps[k] < |m| && m[ps[k]][j] == 0xcccccccc
  }

  lemma FilledWords(s: Snapshot, q: Snapshot, ps: seq<nat>)
    requires FilledSince(s, q, ps)
    ensures FullOfFill(q.m, ps)
  {
    hide TableFrame;
  }

  /** A granted block has been filled, and then only the table's own pages may have been written. */
  lemma GrantFills(s: Snapshot, size: nat, x: Grant, m: seq<Row>, r: Snapshot)
    requires Coherent(s) && Scannable(s.a, size) && AllocSpec(s.a, size) == Some(x) && size > 0 && x.frame < |s.m|
    requires m == s.m[x.frame := FilledRow()] && OnlyTablePages(m, r.m, s.t)
    requires forall p: nat :: TableFrame(r.t, p) <==> TableFrame(s.t, p)
    ensures FilledSince(s, r, [x.frame])
  {
    hide FilledRow, AllocSpec, TableFrame, WfAlloc;
    GrantCounts(s.a, size, x, x.frame);
    FreeFrameIsNoTablePage(s, x.frame);
    assert [x.frame][0] == x.frame;
  }
}
