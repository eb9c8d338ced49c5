/** What every operation on a page table keeps: a transitive relation between the states before and after. */
module Evolution {
  import opened Bits
  import opened Outcomes
  import opened Descriptors
  import opened AddressSpace
  import opened References
  import opened Frames
  import opened Memory
  import opened TableMemory

  /** A machine as one page table sees it: the allocator, physical memory and the table. */
  datatype Snapshot = Snapshot(a: FrameState, m: seq<Row>, t: Table)

  /** The table is well formed, memory holds it, and every reference it has is counted. */
  ghost predicate Coherent(s: Snapshot) {
    |s.m| == |s.a.counts| && Stored(s.m, s.t) && Uniform(s.t.l1) && Covered(s.a.counts, s.t)
  }

  lemma CoherentDescs(s: Snapshot)
    requires Coherent(s)
    ensures WfDescs(s.t) && |s.t.l1| % 16 == 0 && |s.t.l1| <= 0x1000
  {
  }

  lemma CoherentHolds(s: Snapshot)
    requires Coherent(s)
    ensures Holds(s.m, s.t)
  {
  }

  lemma CoherentShape(s: Snapshot)
    requires Coherent(s)
    ensures Stored(s.m, s.t) && |s.m| == |s.a.counts|
  {
  }

  /** Pages move only forward, from Free to Reserved to Committed, and a committed page keeps its frame. */
  predicate Forward(x: PageState, y: PageState) {
    x == y || x == Free || (x.Reserved? && y.Committed?)
  }

  ghost predicate SameShape(s: Snapshot, r: Snapshot) {
    && |r.a.counts| == |s.a.counts| && |r.m| == |s.m|
    && r.t.base == s.t.base && r.t.counted == s.t.counted && |r.t.l1| == |s.t.l1|
  }

  /** What the count of a frame is besides the table's own references. */
  function Balance(s: Snapshot, f: nat): int
    requires f < |s.a.counts|
  {
    s.a.counts[f] - Refs(s.t, f)
  }

  ghost predicate Balanced(s: Snapshot, r: Snapshot)
    requires SameShape(s, r)
  {
    forall f :: 0 <= f < |s.a.counts| ==> Balance(r, f) == Balance(s, f)
  }

  ghost predicate CountsGrow(s: Snapshot, r: Snapshot)
    requires SameShape(s, r)
  {
    forall f :: 0 <= f < |s.a.counts| ==> s.a.counts[f] <= r.a.counts[f]
  }

  /** The table's own pages stay, and new ones come from frames that were free. */
  ghost predicate TablePagesGrow(s: Snapshot, r: Snapshot) {
    && (forall p: nat :: TableFrame(s.t, p) ==> TableFrame(r.t, p))
    && (forall p: nat :: TableFrame(r.t, p) && !TableFrame(s.t, p) ==> p < |s.a.counts| && s.a.counts[p] == 0)
  }

  ghost predicate PagesForward(s: Snapshot, r: Snapshot)
    requires SameShape(s, r)
  {
    forall v :: 0 <= v < PageCount(s.t) ==> Forward(At(s.t, v), At(r.t, v))
  }

  /** Memory changes only in the table's own pages and in frames that were free. */
  ghost predicate Confined(s: Snapshot, r: Snapshot)
    requires SameShape(s, r)
  {
    forall p :: 0 <= p < |s.m| && p < |s.a.counts| && s.a.counts[p] > 0 && !TableFrame(s.t, p) ==> r.m[p] == s.m[p]
  }

  ghost predicate Evolves(s: Snapshot, r: Snapshot) {
    && SameShape(s, r) && Balanced(s, r) && CountsGrow(s, r) && TablePagesGrow(s, r) && PagesForward(s, r) && Confined(s, r)
  }

  /** No frame that was in use gets another reference. */
  ghost predicate OnlyFreshFrames(s: Snapshot, r: Snapshot) {
    && |r.a.counts| == |s.a.counts|
    && forall f :: 0 <= f < |s.a.counts| ==> r.a.counts[f] == s.a.counts[f] || (s.a.counts[f] == 0 && r.a.counts[f] == 1)
  }

  /** The table keeps its pages, and memory changes in the table's pages only. */
  ghost predicate Quiet(s: Snapshot, r: Snapshot) {
    && |r.m| == |s.m| && (forall p: nat :: TableFrame(s.t, p) ==> TableFrame(r.t, p))
    && forall p: nat :: p < |s.m| && !TableFrame(r.t, p) ==> r.m[p] == s.m[p]
  }

  lemma QuietTrans(s: Snapshot, q: Snapshot, r: Snapshot)
    requires Quiet(s, q) && Quiet(q, r)
    ensures Quiet(s, r)
  {
    hide TableFrame;
  }

  /** If page u has become committed, it is backed by a frame of memory that was free, in a table that counts references. */
  ghost predicate FreshAt(s: Snapshot, t: Table, u: nat)
    requires u < PageCount(s.t) && u < PageCount(t)
  {
    At(t, u).Committed? && At(t, u) != At(s.t, u)
    ==> s.t.counted && At(t, u).frame < |s.a.counts| && s.a.counts[At(t, u).frame] == 0
  }

  /** So is every page that has become committed. */
  ghost predicate FreshCommits(s: Snapshot, r: Snapshot) {
    PageCount(r.t) == PageCount(s.t) && forall u: nat :: u < PageCount(s.t) ==> FreshAt(s, r.t, u)
  }

  lemma EvolvesRefl(s: Snapshot)
    requires |s.m| == |s.a.counts|
    ensures Evolves(s, s) && OnlyFreshFrames(s, s) && Quiet(s, s)
  {
  }

  lemma EvolvesTrans(s: Snapshot, q: Snapshot, r: Snapshot)
    requires Evolves(s, q) && Evolves(q, r)
    ensures Evolves(s, r)
    ensures OnlyFreshFrames(s, q) && OnlyFreshFrames(q, r) ==> OnlyFreshFrames(s, r)
    ensures Quiet(s, q) && Quiet(q, r) ==> Quiet(s, r)
  {
    hide Quiet;
    if Quiet(s, q) && Quiet(q, r) {
      QuietTrans(s, q, r);
    }
    assert Balanced(s, r) by { BalancedTrans(s, q, r); }
    assert PagesForward(s, r) by { ForwardTrans(s, q, r); }
    assert CountsGrow(s, r);
    assert TablePagesGrow(s, r);
    assert Confined(s, r) by { ConfinedTrans(s, q, r); }
    if OnlyFreshFrames(s, q) && OnlyFreshFrames(q, r) {
      FreshTrans(s, q, r);
    }
  }

  lemma BalancedTrans(s: Snapshot, q: Snapshot, r: Snapshot)
    requires SameShape(s, q) && SameShape(q, r) && Balanced(s, q) && Balanced(q, r)
    ensures Balanced(s, r)
  {
    hide Balance;
  }

  lemma ForwardTrans(s: Snapshot, q: Snapshot, r: Snapshot)
    requires SameShape(s, q) && SameShape(q, r) && PagesForward(s, q) && PagesForward(q, r)
    ensures PagesForward(s, r)
  {
    hide At;
  }

  lemma ConfinedTrans(s: Snapshot, q: Snapshot, r: Snapshot)
    requires SameShape(s, q) && SameShape(q, r) && Confined(s, q) && Confined(q, r)
    requires CountsGrow(s, q) && TablePagesGrow(s, q)
    ensures Confined(s, r)
  {
    hide TableFrame;
  }

  lemma FreshTrans(s: Snapshot, q: Snapshot, r: Snapshot)
    requires OnlyFreshFrames(s, q) && OnlyFreshFrames(q, r)
    ensures OnlyFreshFrames(s, r)
  {
  }

  /** Coherence is kept once the table itself stays well formed and in memory. */
  lemma EvolvesCovered(s: Snapshot, r: Snapshot)
    requires Covered(s.a.counts, s.t) && Evolves(s, r)
    ensures Covered(r.a.counts, r.t)
  {
    hide Refs;
    forall f | 0 <= f < |r.a.counts| ensures Refs(r.t, f) <= r.a.counts[f] {
      assert Balance(r, f) == Balance(s, f);
    }
  }

  // ---------------------------------------------------------------- single steps

  lemma FreeFrameIsNoTablePage(s: Snapshot, p: nat)
    requires Covered(s.a.counts, s.t) && p < |s.a.counts| && s.a.counts[p] == 0
    ensures !TableFrame(s.t, p)
  {
    if TableFrame(s.t, p) {
      TableFrameReferenced(s.t, p);
    }
  }

  /** Memory outside the table's pages may change freely. */
  lemma StoredElsewhere(m: seq<Row>, t: Table, p: nat, row: Row)
    requires Stored(m, t) && p < |m| && !TableFrame(t, p)
    ensures Stored(m[p := row], t)
  {
    HoldsElsewhere(m, m[p := row], t);
  }

  /** Descriptor i replaced by one that holds the same references and the same table page. */
  lemma SetDescEvolves(s: Snapshot, i: nat, d: Desc, m: seq<Row>)
    requires |s.m| == |s.a.counts| == |m| && i < |s.t.l1|
    requires d.DSecond? <==> s.t.l1[i].DSecond?
    requires d.DSecond? ==> d.frame == s.t.l1[i].frame
    requires forall f :: 0 <= f < |s.a.counts| ==> DescRefs(d, i, s.t.counted, f) == DescRefs(s.t.l1[i], i, s.t.counted, f)
    requires forall j :: 0 <= j < 0x100 ==> Forward(DescAt(s.t.l1[i], i, j), DescAt(d, i, j))
    requires forall p :: 0 <= p < |m| && !TableFrame(s.t, p) ==> m[p] == s.m[p]
    ensures var r := Snapshot(s.a, m, SetDesc(s.t, i, d)); Evolves(s, r) && OnlyFreshFrames(s, r)
  {
    var r := Snapshot(s.a, m, SetDesc(s.t, i, d));
    SameTablePages(s.t, i, d);
    forall f | 0 <= f < |s.a.counts| ensures Balance(r, f) == Balance(s, f) {
      RefsSet(s.t, i, d, f);
    }
    SetDescForward(s.t, i, d);
  }

  lemma SetDescForward(t: Table, i: nat, d: Desc)
    requires i < |t.l1|
    requires forall j :: 0 <= j < 0x100 ==> Forward(DescAt(t.l1[i], i, j), DescAt(d, i, j))
    ensures forall v :: 0 <= v < PageCount(t) ==> Forward(At(t, v), At(SetDesc(t, i, d), v))
  {
    forall v | 0 <= v < PageCount(t) ensures Forward(At(t, v), At(SetDesc(t, i, d), v)) {
      assert v / 0x100 == i ==> Forward(DescAt(t.l1[i], i, v % 0x100), DescAt(d, i, v % 0x100));
    }
  }

  lemma SameTablePages(t: Table, i: nat, d: Desc)
    requires i < |t.l1|
    requires d.DSecond? <==> t.l1[i].DSecond?
    requires d.DSecond? ==> d.frame == t.l1[i].frame
    ensures forall p: nat :: TableFrame(SetDesc(t, i, d), p) <==> TableFrame(t, p)
  {
    var u := SetDesc(t, i, d);
    forall p: nat ensures TableFrame(u, p) <==> TableFrame(t, p) {
      forall k | 0 <= k < |t.l1| ensures (u.l1[k].DSecond? && u.l1[k].frame == p) <==> (t.l1[k].DSecond? && t.l1[k].frame == p) {
      }
    }
  }

  /** Writing a descriptor, or an entry of a second-level table, is writing to the table's own pages. */
  lemma DescQuiet(s: Snapshot, i: nat, d: Desc, r: Snapshot)
    requires i < |s.t.l1| <= 0x1000 && !s.t.l1[i].DSecond? && !d.DSecond? && r.t == SetDesc(s.t, i, d) && |r.m| == |s.m|
    requires forall p: nat :: p < |s.m| && p != s.t.base + i / 0x400 ==> r.m[p] == s.m[p]
    ensures Quiet(s, r)
  {
    SameTablePages(s.t, i, d);
    assert TableFrame(r.t, s.t.base + i / 0x400);
  }

  lemma EntryQuiet(s: Snapshot, i: nat, d: Desc, r: Snapshot)
    requires i < |s.t.l1| && s.t.l1[i].DSecond? && d.DSecond? && d.frame == s.t.l1[i].frame && r.t == SetDesc(s.t, i, d) && |r.m| == |s.m|
    requires forall p: nat :: p < |s.m| && p != d.frame ==> r.m[p] == s.m[p]
    ensures Quiet(s, r)
  {
    SameTablePages(s.t, i, d);
    assert TableFrame(s.t, d.frame);
  }

  lemma SplitQuiet(s: Snapshot, i: nat, g: Grant, r: Snapshot)
    requires i < |s.t.l1| <= 0x1000 && s.t.l1[i].DFree? && r.t == SetDesc(s.t, i, SplitDesc(g.frame)) && |r.m| == |s.m|
    requires forall p: nat :: p < |s.m| && p != s.t.base + i / 0x400 && p != g.frame ==> r.m[p] == s.m[p]
    ensures Quiet(s, r)
  {
    SplitTablePages(s.t, i, SplitDesc(g.frame));
    assert TableFrame(r.t, s.t.base + i / 0x400);
    assert r.t.l1[i].DSecond? && r.t.l1[i].frame == g.frame;
  }

  /** One free descriptor reserved. */
  lemma ReserveDescStep(s: Snapshot, i: nat)
    requires Coherent(s) && i < |s.t.l1| && s.t.l1[i].DFree?
    ensures InMemory(s.m, L1Slot(s.t.base, i))
    ensures var r := Snapshot(s.a, Poke(s.m, L1Slot(s.t.base, i), 4), SetDesc(s.t, i, DReserved));
            Coherent(r) && Evolves(s, r) && OnlyFreshFrames(s, r) && Quiet(s, r)
  {
    StoreDesc(s.m, s.t, i, DReserved);
    var r := Snapshot(s.a, Poke(s.m, L1Slot(s.t.base, i), 4), SetDesc(s.t, i, DReserved));
    assert TableFrame(s.t, s.t.base + i / 0x400);
    SetDescEvolves(s, i, DReserved, r.m);
    UniformSet(s.t.l1, i, DReserved);
    EvolvesCovered(s, r);
    DescQuiet(s, i, DReserved, r);
  }

  /** One free second-level entry reserved. */
  lemma ReserveEntryStep(s: Snapshot, i: nat, j: nat)
    requires Coherent(s) && i < |s.t.l1| && s.t.l1[i].DSecond? && j < |s.t.l1[i].entries| == 0x100 && s.t.l1[i].entries[j].EFree?
    ensures InMemory(s.m, Slot(s.t.l1[i].frame, j))
    ensures var r := Snapshot(s.a, Poke(s.m, Slot(s.t.l1[i].frame, j), 4), SetEntry(s.t, i, j, EReserved));
            Coherent(r) && Evolves(s, r) && OnlyFreshFrames(s, r) && Quiet(s, r)
  {
    StoreEntry(s.m, s.t, i, j, EReserved);
    var d := s.t.l1[i].(entries := s.t.l1[i].entries[j := EReserved]);
    var r := Snapshot(s.a, Poke(s.m, Slot(s.t.l1[i].frame, j), 4), SetEntry(s.t, i, j, EReserved));
    assert TableFrame(s.t, s.t.l1[i].frame);
    SetDescEvolves(s, i, d, r.m);
    UniformSet(s.t.l1, i, d);
    EvolvesCovered(s, r);
    EntryQuiet(s, i, d, r);
  }

  /** A second-level table with every page free. */
  function EmptyEntries(): seq<Entry> {
    seq(SECOND_LEVEL_ENTRIES, _ => EFree)
  }

  function SplitDesc(p: nat): Desc {
    DSecond(p, EmptyEntries())
  }

  lemma SplitRefs(p: nat, i: nat, counted: bool, f: nat)
    ensures DescRefs(SplitDesc(p), i, counted, f) == One(p == f)
  {
    assert EPage(f) !in EmptyEntries();
  }

  /** Granting a block adds one to the counts of exactly its frames. */
  lemma GrantCounts(a: FrameState, size: nat, g: Grant, f: nat)
    requires Scannable(a, size) && AllocSpec(a, size) == Some(g) && f < |a.counts|
    ensures |g.after.counts| == |a.counts| && g.frame + size <= |a.counts| && g.frame > 0 && Aligned(g.frame, size)
    ensures g.after.counts[f] == a.counts[f] + One(InRun(f, g.frame, size))
    ensures InRun(f, g.frame, size) ==> a.counts[f] == 0
  {
    AllocFacts(a, size);
  }

  lemma GrantGrows(s: Snapshot, size: nat, g: Grant, r: Snapshot)
    requires Scannable(s.a, size) && AllocSpec(s.a, size) == Some(g) && r.a == g.after && SameShape(s, r)
    requires forall f :: 0 <= f < |s.a.counts| ==> Refs(r.t, f) == Refs(s.t, f) + One(InRun(f, g.frame, size))
    ensures Balanced(s, r) && CountsGrow(s, r) && OnlyFreshFrames(s, r)
  {
    hide AllocSpec, Refs;
    forall f | 0 <= f < |s.a.counts|
      ensures Balance(r, f) == Balance(s, f)
      ensures s.a.counts[f] == r.a.counts[f] || (s.a.counts[f] == 0 && r.a.counts[f] == 1)
    {
      GrantCounts(s.a, size, g, f);
    }
  }

  /** A free section turned into a second-level table, in a frame granted for it. */
  lemma SplitStep(s: Snapshot, i: nat, g: Grant, m: seq<Row>)
    requires Coherent(s) && i < |s.t.l1| && s.t.l1[i].DFree?
    requires Scannable(s.a, 1) && AllocSpec(s.a, 1) == Some(g)
    requires |m| == |s.m| && g.frame < |m| && HoldsEntries(m, g.frame, EmptyEntries())
    requires forall p :: 0 <= p < |m| && p != g.frame ==> m[p] == s.m[p]
    ensures InMemory(m, L1Slot(s.t.base, i)) && WfDesc(SplitDesc(g.frame))
    ensures var r := Snapshot(g.after, Poke(m, L1Slot(s.t.base, i), EncDesc(SplitDesc(g.frame))), SetDesc(s.t, i, SplitDesc(g.frame)));
            Coherent(r) && Evolves(s, r) && OnlyFreshFrames(s, r) && Quiet(s, r)
  {
    var d := SplitDesc(g.frame);
    GrantCounts(s.a, 1, g, g.frame);
    FreeFrameIsNoTablePage(s, g.frame);
    StoredElsewhere(s.m, s.t, g.frame, m[g.frame]);
    assert s.m[g.frame := m[g.frame]] == m;
    StoreDesc(m, s.t, i, d);
    var r := Snapshot(g.after, Poke(m, L1Slot(s.t.base, i), EncDesc(d)), SetDesc(s.t, i, d));
    SplitEvolves(s, i, g, r.m);
    UniformSet(s.t.l1, i, d);
    EvolvesCovered(s, r);
    SplitQuiet(s, i, g, r);
  }

  lemma SplitEvolves(s: Snapshot, i: nat, g: Grant, m: seq<Row>)
    requires |s.m| == |s.a.counts| == |m| && i < |s.t.l1| && s.t.l1[i].DFree?
    requires Scannable(s.a, 1) && AllocSpec(s.a, 1) == Some(g)
    requires forall p :: 0 <= p < |m| && p != g.frame && !TableFrame(s.t, p) ==> m[p] == s.m[p]
    ensures var r := Snapshot(g.after, m, SetDesc(s.t, i, SplitDesc(g.frame)));
            Evolves(s, r) && OnlyFreshFrames(s, r)
  {
    var d := SplitDesc(g.frame);
    var r := Snapshot(g.after, m, SetDesc(s.t, i, d));
    assert |s.a.counts| > 0;
    GrantCounts(s.a, 1, g, 0);
    GrantCounts(s.a, 1, g, g.frame);
    forall f | 0 <= f < |s.a.counts| ensures Refs(r.t, f) == Refs(s.t, f) + One(InRun(f, g.frame, 1)) {
      RefsSet(s.t, i, d, f);
      SplitRefs(g.frame, i, s.t.counted, f);
    }
    GrantGrows(s, 1, g, r);
    SetDescForward(s.t, i, d);
    assert TablePagesGrow(s, r) by { SplitTablePages(s.t, i, d); }
  }

  lemma SplitTablePages(t: Table, i: nat, d: Desc)
    requires i < |t.l1| && t.l1[i].DFree? && d.DSecond?
    ensures forall p: nat :: TableFrame(SetDesc(t, i, d), p) <==> TableFrame(t, p) || p == d.frame
  {
    var u := SetDesc(t, i, d);
    assert u.l1[i] == d;
    forall p: nat ensures TableFrame(u, p) <==> TableFrame(t, p) || p == d.frame {
      forall k | 0 <= k < |t.l1| && k != i ensures u.l1[k] == t.l1[k] {
      }
    }
  }

  // ---------------------------------------------------------------- commits

  lemma CommitForward(t: Table, g: Granularity, v: nat, p: nat)
    requires WfDescs(t) && |t.l1| % 16 == 0 && Committable(t, g, v)
    ensures forall u :: 0 <= u < PageCount(t) ==> Forward(At(t, u), At(Commit(t, g, v, p), u))
  {
    hide Commit, WfDescs;
    forall u | 0 <= u < PageCount(t) ensures Forward(At(t, u), At(Commit(t, g, v, p), u)) {
      CommitAt(t, g, v, p, u);
    }
  }

  lemma CommitTablePages(t: Table, g: Granularity, v: nat, p: nat)
    requires WfDescs(t) && |t.l1| % 16 == 0 && Committable(t, g, v)
    ensures forall q: nat :: TableFrame(Commit(t, g, v, p), q) <==> TableFrame(t, q)
  {
    match g
    case Page =>
      CommittablePage(t, v);
      var i := v / 0x100;
      SameTablePages(t, i, t.l1[i].(entries := t.l1[i].entries[v % 0x100 := EPage(p)]));
    case Section =>
      CommittableSection(t, v);
      SameTablePages(t, v / 0x100, DSection(UnitBase(g, p)));
    case Supersection =>
      CommittableSuper(t, v);
      var i := v / 0x1000 * 16;
      var u := Commit(t, g, v, p);
      forall k | 0 <= k < |t.l1| ensures t.l1[k].DSecond? || u.l1[k].DSecond? ==> u.l1[k] == t.l1[k] {
      }
  }

  lemma CommitUniform(t: Table, g: Granularity, v: nat, p: nat)
    requires WfDescs(t) && |t.l1| % 16 == 0 && Committable(t, g, v) && Uniform(t.l1)
    ensures Uniform(Commit(t, g, v, p).l1)
  {
    match g
    case Page =>
      CommittablePage(t, v);
      var i := v / 0x100;
      UniformSet(t.l1, i, t.l1[i].(entries := t.l1[i].entries[v % 0x100 := EPage(p)]));
    case Section =>
      CommittableSection(t, v);
      UniformSet(t.l1, v / 0x100, DSection(UnitBase(g, p)));
    case Supersection =>
      CommittableSuper(t, v);
      var i, l1 := v / 0x1000 * 16, Commit(t, g, v, p).l1;
      forall a, b | 0 <= a < |l1| && 0 <= b < |l1| && a / 16 == b / 16 && l1[a].DSuper? ensures l1[b] == l1[a] {
        assert i <= a < i + 16 <==> i <= b < i + 16;
      }
  }

  /** A granted block committed to a unit that was reserved for it. */
  lemma CommitStep(s: Snapshot, g: Granularity, v: nat, x: Grant, m: seq<Row>)
    requires Coherent(s) && s.t.counted && Committable(s.t, g, v)
    requires Scannable(s.a, Span(g, 1)) && AllocSpec(s.a, Span(g, 1)) == Some(x)
    requires |m| == |s.m| && Stored(m, Commit(s.t, g, v, x.frame))
    requires forall p :: 0 <= p < |m| && p != x.frame && !TableFrame(s.t, p) ==> m[p] == s.m[p]
    ensures var r := Snapshot(x.after, m, Commit(s.t, g, v, x.frame)); Coherent(r) && Evolves(s, r) && OnlyFreshFrames(s, r)
  {
    hide AllocSpec, Commit, Committable, Refs;
    var r := Snapshot(x.after, m, Commit(s.t, g, v, x.frame));
    assert |s.a.counts| > 0;
    GrantCounts(s.a, Span(g, 1), x, 0);
    AlignedUnit(g, x.frame);
    forall f | 0 <= f < |s.a.counts| ensures Refs(r.t, f) == Refs(s.t, f) + One(InRun(f, x.frame, Span(g, 1))) {
      CommitRefs(s.t, g, v, x.frame, f);
    }
    GrantGrows(s, Span(g, 1), x, r);
    GrantCounts(s.a, Span(g, 1), x, x.frame);
    CommitForward(s.t, g, v, x.frame);
    CommitTablePages(s.t, g, v, x.frame);
    CommitUniform(s.t, g, v, x.frame);
    EvolvesCovered(s, r);
  }

  lemma AlignedUnit(g: Granularity, p: nat)
    requires Aligned(p, Span(g, 1))
    ensures UnitBase(g, p) == p
  {
  }

  // ---------------------------------------------------------------- a commit in memory

  /** m and r differ at most in the pages of table t. */
  ghost predicate OnlyTablePages(m: seq<Row>, r: seq<Row>, t: Table) {
    |r| == |m| && forall p :: 0 <= p < |m| && !TableFrame(t, p) ==> r[p] == m[p]
  }

  /** The unit of frames that contains p may be mapped by t: it is addressable and, if t counts references, clear of
      the first frame past the end of memory. */
  predicate Mappable(t: Table, n: nat, g: Granularity, p: nat) {
    p < 0x100000 && (t.counted ==> !InRun(n, UnitBase(g, p), Span(g, 1)))
  }

  lemma CommitPageStored(m: seq<Row>, t: Table, v: nat, p: nat)
    requires Stored(m, t) && Committable(t, Page, v) && Mappable(t, |m|, Page, p)
    ensures v / 0x100 < |t.l1| && t.l1[v / 0x100].DSecond? && InMemory(m, Slot(t.l1[v / 0x100].frame, v % 0x100))
    ensures var r := Poke(m, Slot(t.l1[v / 0x100].frame, v % 0x100), EncEntry(EPage(p)));
            Stored(r, Commit(t, Page, v, p)) && OnlyTablePages(m, r, t)
  {
    CommittablePage(t, v);
    var i := v / 0x100;
    StoreEntry(m, t, i, v % 0x100, EPage(p));
    assert TableFrame(t, t.l1[i].frame);
  }

  lemma CommitSectionStored(m: seq<Row>, t: Table, v: nat, p: nat)
    requires Stored(m, t) && Committable(t, Section, v) && Mappable(t, |m|, Section, p)
    ensures v / 0x100 < |t.l1| && InMemory(m, L1Slot(t.base, v / 0x100)) && WfDesc(DSection(UnitBase(Section, p)))
    ensures var r := Poke(m, L1Slot(t.base, v / 0x100), EncDesc(DSection(UnitBase(Section, p))));
            Stored(r, Commit(t, Section, v, p)) && OnlyTablePages(m, r, t)
  {
    CommittableSection(t, v);
    UnitBaseFacts(Section, p);
    StoreDesc(m, t, v / 0x100, DSection(UnitBase(Section, p)));
    assert TableFrame(t, t.base + v / 0x100 / 0x400);
  }

  /** The first k of sixteen reserved descriptors replaced by a supersection's. */
  function PartSuper(t: Table, i: nat, k: nat, p: nat): Table
    requires i + k <= |t.l1|
  {
    t.(l1 := FillDescs(t.l1, i, k, DSuper(UnitBase(Supersection, p))))
  }

  lemma PartSuperNone(t: Table, i: nat, p: nat)
    requires i <= |t.l1|
    ensures PartSuper(t, i, 0, p) == t
  {
    assert FillDescs(t.l1, i, 0, DSuper(UnitBase(Supersection, p))) == t.l1;
  }

  lemma PartSuperStored(m: seq<Row>, t: Table, i: nat, k: nat, p: nat)
    requires k < 16 && i % 16 == 0 && i + 16 <= |t.l1| && Mappable(t, |m|, Supersection, p)
    requires AllReserved(t.l1, i, 16) && Stored(m, PartSuper(t, i, k, p))
    ensures InMemory(m, L1Slot(t.base, i + k)) && WfDesc(DSuper(UnitBase(Supersection, p)))
    ensures Stored(Poke(m, L1Slot(t.base, i + k), EncDesc(DSuper(UnitBase(Supersection, p)))), PartSuper(t, i, k + 1, p))
  {
    var d := DSuper(UnitBase(Supersection, p));
    var q := PartSuper(t, i, k, p);
    UnitBaseFacts(Supersection, p);
    assert Fits(q, |m|, i + k, d) by {
      DivMod(16, i / 16, k);
    }
    StoreDesc(m, q, i + k, d);
    assert FillDescs(t.l1, i, k, d)[i + k := d] == FillDescs(t.l1, i, k + 1, d);
    assert SetDesc(q, i + k, d) == PartSuper(t, i, k + 1, p);
  }

  lemma PartSuperAll(t: Table, v: nat, p: nat)
    requires |t.l1| % 16 == 0 && AllReserved(t.l1, v / 0x1000 * 16, 16)
    ensures Commit(t, Supersection, v, p) == PartSuper(t, v / 0x1000 * 16, 16, p)
  {
  }

  // ---------------------------------------------------------------- allocating for a unit

  lemma UnitSize(g: Granularity)
    ensures BlockSize(Span(g, 1)) && Span(g, 1) > 0
  {
  }

  /** A granted block can be mapped, and its frames are not table pages, so filling the first of them is harmless. */
  lemma GrantStored(s: Snapshot, g: Granularity, x: Grant, m: seq<Row>)
    requires Coherent(s) && Scannable(s.a, Span(g, 1)) && AllocSpec(s.a, Span(g, 1)) == Some(x)
    requires x.frame < |s.m| && m == s.m[x.frame := FilledRow()]
    ensures Stored(m, s.t) && Mappable(s.t, |m|, g, x.frame) && UnitBase(g, x.frame) == x.frame
    ensures x.frame > 0 && x.frame + Span(g, 1) <= |s.a.counts|
    ensures forall f :: x.frame <= f < x.frame + Span(g, 1) ==> x.after.counts[f] == 1
    ensures |x.after.counts| == |s.a.counts|
  {
    UnitSize(g);
    AllocFacts(s.a, Span(g, 1));
    AlignedUnit(g, x.frame);
    GrantCounts(s.a, Span(g, 1), x, x.frame);
    FreeFrameIsNoTablePage(s, x.frame);
    StoredElsewhere(s.m, s.t, x.frame, FilledRow());
  }

  /** The allocator after a grant that has been given back: only the cursor has moved. */
  function Returned(a: FrameState, x: Grant): FrameState {
    x.after.(counts := a.counts)
  }

  lemma ReturnCounts(a: FrameState, size: nat, x: Grant)
    requires Scannable(a, size) && AllocSpec(a, size) == Some(x)
    ensures |x.after.counts| == |a.counts| && forall f :: 0 <= f < |a.counts| && x.frame <= f < x.frame + size ==> x.after.counts[f] > 0
    ensures Dropped(x.after.counts, x.frame, size) == a.counts && 0 < x.frame && x.frame + size <= |a.counts|
  {
    AllocFacts(a, size);
    var d := Dropped(x.after.counts, x.frame, size);
    forall f | 0 <= f < |a.counts| ensures d[f] == a.counts[f] {
      GrantCounts(a, size, x, f);
    }
  }

  /** Allocating and giving back changes only a cursor and the contents of a free frame. */
  lemma ReturnStep(s: Snapshot, g: Granularity, x: Grant, m: seq<Row>)
    requires Coherent(s) && Scannable(s.a, Span(g, 1)) && AllocSpec(s.a, Span(g, 1)) == Some(x)
    requires x.frame < |s.m| && m == s.m[x.frame := FilledRow()]
    ensures var r := Snapshot(Returned(s.a, x), m, s.t); Coherent(r) && Evolves(s, r) && OnlyFreshFrames(s, r)
  {
    GrantStored(s, g, x, m);
    GrantCounts(s.a, Span(g, 1), x, x.frame);
    var r := Snapshot(Returned(s.a, x), m, s.t);
    assert PagesForward(s, r);
    assert Balanced(s, r);
  }

  // ---------------------------------------------------------------- a new table

  /** The table with n free sections whose first-level table starts at the given frame. */
  function EmptyTable(base: nat, n: nat, counted: bool): (t: Table)
    ensures t.base == base && t.counted == counted && |t.l1| == n && forall i :: 0 <= i < n ==> t.l1[i] == DFree
  {
    Table(base, counted, seq(n, _ => DFree))
  }

  ghost predicate ZeroWords(m: seq<Row>, base: nat, n: nat) {
    forall i: nat :: i < n ==> InMemory(m, L1Slot(base, i)) && Peek(m, L1Slot(base, i)) == 0
  }

  lemma EmptyAt(t: Table, v: nat)
    requires v < PageCount(t) && forall i :: 0 <= i < |t.l1| ==> t.l1[i] == DFree
    ensures At(t, v) == Free
  {
  }

  lemma EmptyStored(m: seq<Row>, base: nat, n: nat, counted: bool)
    requires n == FIRST_LEVEL_SUPERVISOR_ENTRIES || n == FIRST_LEVEL_USER_ENTRIES
    requires ZeroWords(m, base, n) && 0 < base && base % 4 == 0 && base + 4 <= |m| <= 0x100000
    ensures Stored(m, EmptyTable(base, n, counted)) && Uniform(EmptyTable(base, n, counted).l1)
  {
    var t := EmptyTable(base, n, counted);
    forall v | 0 <= v < PageCount(t) ensures At(t, v) != Committed(|m|) {
      EmptyAt(t, v);
    }
    forall i | 0 <= i < |t.l1| ensures HoldsDesc(m, t, i) {
    }
  }

  lemma EmptyRefs(base: nat, n: nat, counted: bool, f: nat)
    ensures Refs(EmptyTable(base, n, counted), f) == One(InRun(f, base, 4))
  {
    L1RefsEmpty(EmptyTable(base, n, counted).l1, counted, f, n);
  }

  /** A new table is coherent: its references are those the allocator has just granted. */
  lemma EmptyCoherent(a: FrameState, x: Grant, m: seq<Row>, n: nat, counted: bool)
    requires n == FIRST_LEVEL_SUPERVISOR_ENTRIES || n == FIRST_LEVEL_USER_ENTRIES
    requires Scannable(a, 4) && AllocSpec(a, 4) == Some(x) && |m| == |a.counts|
    requires ZeroWords(m, x.frame, n)
    ensures Coherent(Snapshot(x.after, m, EmptyTable(x.frame, n, counted)))
  {
    hide Refs;
    GrantCounts(a, 4, x, 0);
    EmptyStored(m, x.frame, n, counted);
    forall f | 0 <= f < |a.counts| ensures Refs(EmptyTable(x.frame, n, counted), f) <= x.after.counts[f] {
      EmptyRefs(x.frame, n, counted, f);
      GrantCounts(a, 4, x, f);
    }
  }
}
