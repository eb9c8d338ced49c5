/** What mapping given physical memory at a range of units does. */
module Mapping {
  import opened Outcomes
  import opened Descriptors
  import opened AddressSpace
  import opened References
  import opened Frames
  import opened Memory
  import opened TableMemory
  import opened Evolution

  /** The first n physical units from frame p on. */
  function Consecutive(g: Granularity, p: nat, n: nat): (ps: seq<nat>)
    ensures |ps| == n && forall k :: 0 <= k < n ==> ps[k] == p + Span(g, k)
  {
    seq(n, k requires 0 <= k => p + Span(g, k))
  }

  ghost predicate AllCommittable(t: Table, g: Granularity, v: nat, n: nat) {
    forall k :: 0 <= k < n ==> Committable(t, g, v + Span(g, k))
  }

  lemma ConsecutiveStep(t: Table, g: Granularity, v: nat, p: nat, k: nat)
    ensures CommitRun(t, g, v, Consecutive(g, p, 0)) == t
    ensures CommitRun(t, g, v, Consecutive(g, p, k + 1)) ==
            Commit(CommitRun(t, g, v, Consecutive(g, p, k)), g, v + Span(g, k), p + Span(g, k))
  {
    hide Commit, CommitRun, Span;
    CommitRunNone(t, g, v);
    assert Consecutive(g, p, 0) == [];
    CommitRunSnoc(t, g, v, Consecutive(g, p, k), p + Span(g, k));
    assert Consecutive(g, p, k + 1) == Consecutive(g, p, k) + [p + Span(g, k)];
  }

  lemma CommitRunNone(t: Table, g: Granularity, v: nat)
    ensures CommitRun(t, g, v, []) == t
  {
  }

  /** A run of commits moves pages forward only, keeps the table's own pages and the grouping of supersections. */
  lemma {:induction false} CommitRunKeeps(t: Table, g: Granularity, v: nat, ps: seq<nat>)
    requires WfDescs(t) && |t.l1| % 16 == 0 && Uniform(t.l1)
    requires forall k :: 0 <= k < |ps| ==> ps[k] < 0x100000 && Committable(t, g, v + Span(g, k))
    ensures Uniform(CommitRun(t, g, v, ps).l1)
    ensures forall u :: 0 <= u < PageCount(t) ==> Forward(At(t, u), At(CommitRun(t, g, v, ps), u))
    ensures forall q: nat :: TableFrame(CommitRun(t, g, v, ps), q) <==> TableFrame(t, q)
  {
    hide Commit, Committable, WfDescs, Uniform, TableFrame, At;
    if ps != [] {
      var k := |ps| - 1;
      var r := CommitRun(t, g, v, ps[..k]);
      CommitRunKeeps(t, g, v, ps[..k]);
      CommitRunAt(t, g, v, ps[..k]);
      StillCommittable(t, g, v, ps[..k], k);
      CommitUniform(r, g, v + Span(g, k), ps[k]);
      CommitForward(r, g, v + Span(g, k), ps[k]);
      CommitTablePages(r, g, v + Span(g, k), ps[k]);
    }
  }

  /** Consecutive units are one run of frames, which starts where the unit of the first frame does. */
  lemma {:induction false} ConsecutiveRefs(g: Granularity, p: nat, n: nat, f: nat)
    ensures RunRefs(g, Consecutive(g, p, n), f) == One(InRun(f, UnitBase(g, p), Span(g, n)))
  {
    hide Consecutive;
    if n != 0 {
      var k := n - 1;
      assert Consecutive(g, p, n)[..k] == Consecutive(g, p, k);
      ConsecutiveRefs(g, p, k, f);
      UnitBaseStep(g, p, k);
      UnitIndexFacts(g, 0, k);
    }
  }

  /** The state after the first i units from page v on have been mapped, before any reference is taken. */
  ghost predicate Mapped(s: Snapshot, r: Snapshot, g: Granularity, v: nat, p: nat, i: nat) {
    && r.a == s.a && SameShape(s, r) && |s.m| == |s.a.counts|
    && r.t == CommitRun(s.t, g, v, Consecutive(g, p, i))
    && AllCommittable(s.t, g, v, i)
    && Stored(r.m, r.t) && OnlyTablePages(s.m, r.m, s.t)
    && WfDescs(s.t) && |s.t.l1| % 16 == 0 && Uniform(s.t.l1)
  }

  lemma MappedNothing(s: Snapshot, g: Granularity, v: nat, p: nat)
    requires Coherent(s)
    ensures Mapped(s, s, g, v, p, 0)
  {
    ConsecutiveStep(s.t, g, v, p, 0);
  }

  /** The next unit can be committed exactly when it could be at the start. */
  lemma MappedNext(s: Snapshot, r: Snapshot, g: Granularity, v: nat, p: nat, i: nat)
    requires Mapped(s, r, g, v, p, i) && p + Span(g, i) <= 0x100000
    ensures Committable(r.t, g, v + Span(g, i)) <==> Committable(s.t, g, v + Span(g, i))
    ensures forall q: nat :: TableFrame(r.t, q) <==> TableFrame(s.t, q)
  {
    hide Committable, WfDescs, CommitRun, TableFrame, Stored, Uniform;
    BelowEnd(g, p, i);
    CommitRunAt(s.t, g, v, Consecutive(g, p, i));
    CommitRunKeeps(s.t, g, v, Consecutive(g, p, i));
    StillCommittable(s.t, g, v, Consecutive(g, p, i), i);
  }

  lemma MappedFrames(s: Snapshot, r: Snapshot, g: Granularity, v: nat, p: nat, i: nat)
    requires Mapped(s, r, g, v, p, i)
    ensures r.a == s.a && |r.m| == |s.m| == |s.a.counts|
  {
  }

  lemma BelowEnd(g: Granularity, p: nat, i: nat)
    ensures forall k :: 0 <= k < i ==> p + Span(g, k) < p + Span(g, i)
  {
  }

  lemma MappedStep(s: Snapshot, r: Snapshot, g: Granularity, v: nat, p: nat, i: nat, m: seq<Row>, t: Table)
    requires Mapped(s, r, g, v, p, i) && p + Span(g, i) <= 0x100000 && Committable(s.t, g, v + Span(g, i))
    requires t == Commit(r.t, g, v + Span(g, i), p + Span(g, i)) && Stored(m, t) && OnlyTablePages(r.m, m, r.t)
    ensures Mapped(s, Snapshot(s.a, m, t), g, v, p, i + 1)
  {
    MappedNext(s, r, g, v, p, i);
    hide Committable, WfDescs, CommitRun, Commit, TableFrame, Stored, Uniform, OnlyTablePages, Span, AllCommittable;
    ConsecutiveStep(s.t, g, v, p, i);
    TablePagesTrans(s.m, r.m, m, s.t, r.t);
    OneMoreCommittable(s.t, g, v, i);
  }

  lemma TablePagesTrans(m: seq<Row>, q: seq<Row>, r: seq<Row>, t: Table, u: Table)
    requires OnlyTablePages(m, q, t) && OnlyTablePages(q, r, u)
    requires forall p: nat :: TableFrame(u, p) <==> TableFrame(t, p)
    ensures OnlyTablePages(m, r, t)
  {
    hide TableFrame;
  }

  lemma OneMoreCommittable(t: Table, g: Granularity, v: nat, i: nat)
    requires AllCommittable(t, g, v, i) && Committable(t, g, v + Span(g, i))
    ensures AllCommittable(t, g, v, i + 1)
  {
    hide Committable;
  }

  /** b has one more reference than a on each frame that was mapped, and on no other. */
  ghost predicate Settled(a: FrameState, b: FrameState, g: Granularity, p: nat, n: nat) {
    && |b.counts| == |a.counts|
    && forall f :: 0 <= f < |a.counts| ==> b.counts[f] == a.counts[f] + One(InRun(f, UnitBase(g, p), Span(g, n)))
  }

  /** Once units are mapped, one more reference on each of their frames, if the table counts them, balances the books. */
  lemma MappedEvolves(s: Snapshot, r: Snapshot, g: Granularity, v: nat, p: nat, n: nat, b: FrameState)
    requires Coherent(s) && Mapped(s, r, g, v, p, n) && p + Span(g, n) <= 0x100000
    requires if s.t.counted then Settled(s.a, b, g, p, n) else b == s.a
    ensures var q := Snapshot(b, r.m, r.t); Coherent(q) && Evolves(s, q) && (b == s.a ==> OnlyFreshFrames(s, q))
  {
    hide Committable, WfDescs, CommitRun, TableFrame, Stored, Uniform, Refs;
    var q := Snapshot(b, r.m, r.t);
    var ps := Consecutive(g, p, n);
    BelowEnd(g, p, n);
    CommitRunKeeps(s.t, g, v, ps);
    forall f | 0 <= f < |s.a.counts| ensures Balance(q, f) == Balance(s, f) {
      CommitRunRefs(s.t, g, v, ps, f);
      if s.t.counted {
        ConsecutiveRefs(g, p, n, f);
      }
    }
    assert Evolves(s, q);
    EvolvesCovered(s, q);
  }

  /** The physical range of n units from frame p on may be mapped at granularity g by t on a machine of size m: it is
      addressable and, if t counts references, clear of the first frame past the end of memory. */
  predicate RangeMappable(t: Table, m: nat, g: Granularity, p: nat, n: nat) {
    p + Span(g, n) <= 0x100000 && (t.counted ==> !InRun(m, UnitBase(g, p), Span(g, n)) && !InRun(m, p, Span(g, n)))
  }

  lemma UnitMappable(t: Table, m: nat, g: Granularity, p: nat, n: nat, i: nat)
    requires RangeMappable(t, m, g, p, n) && i < n
    ensures Mappable(t, m, g, p + Span(g, i)) && p + Span(g, i) < p + Span(g, n)
  {
    UnitBaseStep(g, p, i);
    UnitIndexFacts(g, 0, i);
    SpanMono(g, i + 1, n);
  }

  /** The units that get mapped are the leading committable ones. */
  lemma MappedReady(s: Snapshot, r: Snapshot, g: Granularity, v: nat, p: nat, i: nat, n: nat)
    requires Mapped(s, r, g, v, p, i) && i <= n && (i < n ==> !Committable(s.t, g, v + Span(g, i)))
    ensures Ready(s.t, g, v, n) == i
  {
    hide Committable;
    ReadyIs(s.t, g, v, n, i);
  }

  /** b is a after one reference to each of the n frames from p on is taken. */
  ghost predicate Acquired(a: FrameState, b: FrameState, p: nat, n: nat) {
    b == a.(counts := Bumped(a.counts, p, n))
  }

  /** Some frame of the run is in memory but not in use, so that it cannot be referenced. */
  ghost predicate FreeInRun(a: FrameState, p: nat, n: nat) {
    exists f :: 0 <= f < |a.counts| && InRun(f, p, n) && a.counts[f] == 0
  }

  /** The outcome of map: the leading committable units are mapped, and references are taken only if that is all of
      them; a panic exactly when a frame to be referenced is free. */
  ghost predicate MapOutcome(s: Snapshot, r: Outcome<bool>, q: Snapshot, g: Granularity, v: nat, p: nat, n: nat) {
    var c := Ready(s.t, g, v, n);
    if s.t.counted && c == n && FreeInRun(s.a, p, Span(g, n)) then r == Panicked(AddRefToUnallocatedPage)
    else
      && r == Done(c == n)
      && q.t == CommitRun(s.t, g, v, Consecutive(g, p, c))
      && |q.m| == |s.m| && Stored(q.m, q.t) && OnlyTablePages(s.m, q.m, s.t)
      && if s.t.counted && c == n then Acquired(s.a, q.a, p, Span(g, n)) else q.a == s.a
  }

  /** Whether map leaves every count in step with the mappings. On a table that counts references it does not when it
      stops part-way, when the physical address is not aligned, so that the mapping rounds it down and the references do
      not, or when a count wraps; unless nothing was mapped in memory. */
  ghost predicate MapKeepsBooks(s: Snapshot, g: Granularity, v: nat, p: nat, n: nat) {
    var c := Ready(s.t, g, v, n);
    || !s.t.counted || c == 0 || UnitBase(g, p) >= |s.a.counts|
    || (c == n && UnitBase(g, p) == p && NoneFull(s.a.counts, p, Span(g, n)))
  }

  lemma MapEvolves(s: Snapshot, r: Outcome<bool>, q: Snapshot, g: Granularity, v: nat, p: nat, n: nat)
    requires Coherent(s) && RangeMappable(s.t, |s.a.counts|, g, p, n)
    requires MapOutcome(s, r, q, g, v, p, n) && r.Done? && MapKeepsBooks(s, g, v, p, n)
    ensures Coherent(q) && Evolves(s, q) && (!s.t.counted ==> OnlyFreshFrames(s, q))
  {
    hide CommitRun, Committable, Stored, Consecutive, OnlyTablePages, Uniform, FreeInRun, Settled;
    var c := Ready(s.t, g, v, n);
    ReadyMeans(s.t, g, v, n);
    SpanMono(g, c, n);
    ConsecutiveShape(s.t, g, v, p, c);
    var m := Snapshot(s.a, q.m, q.t);
    CoherentParts(s);
    assert Mapped(s, m, g, v, p, c) by {
      assert AllCommittable(s.t, g, v, c);
    }
    if s.t.counted {
      BooksSettled(s.a, q.a, g, p, c, n);
    }
    MappedEvolves(s, m, g, v, p, c, q.a);
  }

  /** In the good cases the references taken are those of the frames mapped. */
  lemma BooksSettled(a: FrameState, b: FrameState, g: Granularity, p: nat, c: nat, n: nat)
    requires c <= n && if c == n then Acquired(a, b, p, Span(g, n)) else b == a
    requires c == 0 || UnitBase(g, p) >= |a.counts| || (c == n && UnitBase(g, p) == p && NoneFull(a.counts, p, Span(g, n)))
    ensures Settled(a, b, g, p, c)
  {
    UnitBaseFacts(g, p);
  }

  lemma CoherentParts(s: Snapshot)
    requires Coherent(s)
    ensures WfDescs(s.t) && |s.t.l1| % 16 == 0 && Uniform(s.t.l1) && |s.m| == |s.a.counts|
  {
  }

  lemma ConsecutiveShape(t: Table, g: Granularity, v: nat, p: nat, c: nat)
    ensures var u := CommitRun(t, g, v, Consecutive(g, p, c));
            u.base == t.base && u.counted == t.counted && |u.l1| == |t.l1|
  {
  }

  /** map keeps the books exactly under that condition: otherwise some frame has a mapping that its count does not cover. */
  lemma MapBooks(s: Snapshot, r: Outcome<bool>, q: Snapshot, g: Granularity, v: nat, p: nat, n: nat)
    requires Coherent(s) && RangeMappable(s.t, |s.a.counts|, g, p, n)
    requires MapOutcome(s, r, q, g, v, p, n) && r.Done?
    ensures Evolves(s, q) <==> MapKeepsBooks(s, g, v, p, n)
  {
    hide CommitRun, Committable, Stored, OnlyTablePages, Uniform, FreeInRun, Refs, Consecutive;
    if MapKeepsBooks(s, g, v, p, n) {
      MapEvolves(s, r, q, g, v, p, n);
    } else {
      var c := Ready(s.t, g, v, n);
      ReadyMeans(s.t, g, v, n);
      SpanMono(g, c, n);
      CoherentParts(s);
      var f := Unsettled(s.a, q.a, g, p, c, n);
      MappedRefs(s.t, g, v, p, c, f);
      assert Evolves(s, q) ==> Balance(q, f) == Balance(s, f);
    }
  }

  /** A run of consecutive commits adds one reference on each frame of the run. */
  lemma MappedRefs(t: Table, g: Granularity, v: nat, p: nat, c: nat, f: nat)
    requires t.counted && WfDescs(t) && |t.l1| % 16 == 0 && AllCommittable(t, g, v, c) && p + Span(g, c) <= 0x100000
    ensures Refs(CommitRun(t, g, v, Consecutive(g, p, c)), f) == Refs(t, f) + One(InRun(f, UnitBase(g, p), Span(g, c)))
  {
    hide CommitRun, Committable, Refs, WfDescs;
    BelowEnd(g, p, c);
    CommitRunRefs(t, g, v, Consecutive(g, p, c), f);
    ConsecutiveRefs(g, p, c, f);
  }

  /** Otherwise some frame of memory was mapped without its count growing by one. */
  lemma Unsettled(a: FrameState, b: FrameState, g: Granularity, p: nat, c: nat, n: nat) returns (f: nat)
    requires 0 < c <= n && UnitBase(g, p) < |a.counts| && if c == n then Acquired(a, b, p, Span(g, n)) else b == a
    requires !(c == n && UnitBase(g, p) == p && NoneFull(a.counts, p, Span(g, n)))
    ensures f < |a.counts| == |b.counts| && InRun(f, UnitBase(g, p), Span(g, c)) && b.counts[f] <= a.counts[f]
  {
    UnitBaseFacts(g, p);
    SpanMono(g, 1, c);
    f := UnitBase(g, p);
    if c == n && f == p {
      f :| p <= f < p + Span(g, n) && f < |a.counts| && a.counts[f] == 0xff;
    }
  }

  // ---------------------------------------------------------------- a map that breaks the books

  /** A machine of 0x400 frames, all in use, with a new table in frames 4 to 7. */
  function SmallMachine(): Snapshot {
    Snapshot(FrameState(seq(0x400, _ => 1), 0, 0, 0, 0), seq(0x400, _ => ZeroRow()), EmptyTable(4, FIRST_LEVEL_USER_ENTRIES, true))
  }

  function ZeroRow(): Row {
    seq(0x400, _ => 0)
  }

  lemma SmallMachineCoherent()
    ensures Coherent(SmallMachine())
  {
    hide Refs;
    var s := SmallMachine();
    EmptyStored(s.m, 4, FIRST_LEVEL_USER_ENTRIES, true);
    forall f | 0 <= f < |s.a.counts| ensures Refs(s.t, f) <= s.a.counts[f] {
      EmptyRefs(4, FIRST_LEVEL_USER_ENTRIES, true, f);
    }
  }

  /** The same machine with section 0 reserved. */
  lemma OneReserved() returns (s: Snapshot)
    ensures Coherent(s) && s.t == SetDesc(EmptyTable(4, FIRST_LEVEL_USER_ENTRIES, true), 0, DReserved) && |s.a.counts| == 0x400
  {
    hide Coherent, Evolves, OnlyFreshFrames, Poke;
    SmallMachineCoherent();
    var e := SmallMachine();
    ReserveDescStep(e, 0);
    s := Snapshot(e.a, Poke(e.m, L1Slot(4, 0), 4), SetDesc(e.t, 0, DReserved));
  }

  /** Section 0 alone is reserved, and sections 0 and 1 are mapped to the start of memory: map fails, and leaves section 0
      mapped with no reference on its frames. */
  lemma PartialMapBreaks() returns (s: Snapshot, q: Snapshot)
    ensures Coherent(s) && RangeMappable(s.t, |s.a.counts|, Section, 0, 2)
    ensures MapOutcome(s, Done(false), q, Section, 0, 0, 2) && At(q.t, 0) == Committed(0) && q.a == s.a
    ensures !Evolves(s, q)
  {
    hide Coherent, Evolves, Stored, OnlyTablePages, Poke, Uniform, WfDescs, CommitRun, Committable, EncDesc, NoneFull;
    s := OneReserved();
    CoherentParts(s);
    CoherentShape(s);
    CommittableSection(s.t, 0);
    CommittableSection(s.t, 0x100);
    CommitSectionStored(s.m, s.t, 0, 0);
    var d := DSection(UnitBase(Section, 0));
    q := Snapshot(s.a, Poke(s.m, L1Slot(4, 0), EncDesc(d)), Commit(s.t, Section, 0, 0));
    ReadyIs(s.t, Section, 0, 2, 1);
    ConsecutiveStep(s.t, Section, 0, 0, 0);
    MapBooks(s, Done(false), q, Section, 0, 0, 2);
  }
}
