/** Many page tables on one allocator: what every run keeps. */
module World {
  import opened Outcomes
  import opened Descriptors
  import opened AddressSpace
  import opened References
  import opened Frames
  import opened Memory
  import opened TableMemory
  import opened Evolution
  import opened Release
  import opened Translation
  import opened Copying

  /** The allocator, physical memory, every table ever made (None once destroyed), and for each frame the references
      that no table holds: those of the boot code, the stacks, and whoever else calls the allocator. */
  datatype State = State(a: FrameState, m: seq<Row>, tables: seq<Option<Table>>, outside: seq<nat>)

  datatype Event =
    | Operate(k: nat)
    | Create(k: nat)
    | Destroy(k: nat)
    | Outside

  /** The references of all live tables on frame f. */
  function AllRefs(ts: seq<Option<Table>>, f: nat): nat {
    if ts == [] then 0
    else AllRefs(ts[..|ts| - 1], f) + match ts[|ts| - 1] case None => 0 case Some(t) => Refs(t, f)
  }

  predicate Live(w: State, k: nat) {
    k < |w.tables| && w.tables[k].Some?
  }

  function View(w: State, k: nat): Snapshot
    requires Live(w, k)
  {
    Snapshot(w.a, w.m, w.tables[k].value)
  }

  /** Each frame's count is exactly the outside references plus those of the live tables. */
  ghost predicate Accounted(w: State) {
    && |w.outside| == |w.a.counts|
    && forall f :: 0 <= f < |w.a.counts| ==> w.a.counts[f] == w.outside[f] + AllRefs(w.tables, f)
  }

  ghost predicate AllCoherent(w: State) {
    forall k :: 0 <= k < |w.tables| && w.tables[k].Some? ==> Coherent(View(w, k))
  }

  /** No two tables share a page of theirs. */
  ghost predicate Apart(w: State) {
    forall i, k, p: nat ::
      0 <= i < k < |w.tables| && w.tables[i].Some? && w.tables[k].Some? && TableFrame(w.tables[i].value, p)
      ==> !TableFrame(w.tables[k].value, p)
  }

  ghost predicate Inv(w: State) {
    WfAlloc(w.a) && |w.m| == |w.a.counts| && Accounted(w) && AllCoherent(w) && Apart(w)
  }

  // ---------------------------------------------------------------- steps

  /** An operation on table k, which does what every operation does. */
  ghost predicate OperateStep(w: State, x: State, k: nat) {
    && Live(w, k) && Live(x, k)
    && WfAlloc(x.a) && Coherent(View(x, k)) && Evolves(View(w, k), View(x, k))
    && x.tables == w.tables[k := x.tables[k]] && x.outside == w.outside
  }

  /** A table made in four frames granted for it. */
  ghost predicate CreateStep(w: State, x: State, k: nat) {
    && k == |w.tables| && Scannable(w.a, 4)
    && AllocSpec(w.a, 4).Some? && var g := AllocSpec(w.a, 4).value;
       && x.a == g.after && x.outside == w.outside && |x.m| == |w.m|
       && (exists n, counted ::
             x.tables == w.tables + [Some(EmptyTable(g.frame, n, counted))]
             && Coherent(Snapshot(x.a, x.m, EmptyTable(g.frame, n, counted))))
       && forall p :: 0 <= p < |w.m| && !(g.frame <= p < g.frame + 4) ==> x.m[p] == w.m[p]
  }

  /** Table k destroyed: its references given up. */
  ghost predicate DestroyStep(w: State, x: State, k: nat) {
    && Live(w, k) && x.tables == w.tables[k := None] && x.outside == w.outside && x.m == w.m
    && WfAlloc(x.a) && LessTable(w.a.counts, x.a.counts, w.tables[k].value)
  }

  /** Anything that leaves the tables' own references and pages alone. */
  ghost predicate OutsideStep(w: State, x: State) {
    && WfAlloc(x.a) && x.tables == w.tables && |x.a.counts| == |w.a.counts| && |x.m| == |w.m|
    && |x.outside| == |w.outside| == |w.a.counts|
    && (forall f :: 0 <= f < |w.a.counts| ==> x.a.counts[f] - x.outside[f] == w.a.counts[f] - w.outside[f])
    && forall k, p :: 0 <= k < |w.tables| && w.tables[k].Some? && 0 <= p < |w.m| && TableFrame(w.tables[k].value, p) ==> x.m[p] == w.m[p]
  }

  ghost predicate Step(w: State, e: Event, x: State) {
    match e
    case Operate(k) => OperateStep(w, x, k)
    case Create(k) => CreateStep(w, x, k)
    case Destroy(k) => DestroyStep(w, x, k)
    case Outside => OutsideStep(w, x)
  }

  // ---------------------------------------------------------------- sums over tables

  lemma {:induction false} AllRefsSet(ts: seq<Option<Table>>, k: nat, x: Option<Table>, f: nat)
    requires k < |ts|
    ensures AllRefs(ts[k := x], f) + OptionRefs(ts[k], f) == AllRefs(ts, f) + OptionRefs(x, f)
  {
    var n := |ts| - 1;
    if k == n {
      assert ts[k := x][..n] == ts[..n];
    } else {
      assert ts[k := x][..n] == ts[..n][k := x];
      AllRefsSet(ts[..n], k, x, f);
    }
  }

  function OptionRefs(x: Option<Table>, f: nat): nat {
    match x
    case None => 0
    case Some(t) => Refs(t, f)
  }

  lemma AllRefsAppend(ts: seq<Option<Table>>, x: Option<Table>, f: nat)
    ensures AllRefs(ts + [x], f) == AllRefs(ts, f) + OptionRefs(x, f)
  {
    assert (ts + [x])[..|ts|] == ts;
  }

  lemma {:induction false} AllRefsAtLeast(ts: seq<Option<Table>>, k: nat, f: nat)
    requires k < |ts|
    ensures OptionRefs(ts[k], f) <= AllRefs(ts, f)
  {
    var n := |ts| - 1;
    if k < n {
      AllRefsAtLeast(ts[..n], k, f);
    }
  }

  lemma {:induction false} AllRefsAtLeastTwo(ts: seq<Option<Table>>, i: nat, k: nat, f: nat)
    requires i < k < |ts|
    ensures OptionRefs(ts[i], f) + OptionRefs(ts[k], f) <= AllRefs(ts, f)
  {
    var n := |ts| - 1;
    if k < n {
      AllRefsAtLeastTwo(ts[..n], i, k, f);
    } else {
      AllRefsAtLeast(ts[..n], i, f);
    }
  }

  // ---------------------------------------------------------------- every step keeps the invariant

  /** A table whose pages have not been written to, and whose references are still counted, stays coherent. */
  lemma StaysCoherent(s: Snapshot, a: FrameState, m: seq<Row>)
    requires Coherent(s) && |m| == |s.m| == |a.counts| && Covered(a.counts, s.t)
    requires forall p :: 0 <= p < |m| && TableFrame(s.t, p) ==> m[p] == s.m[p]
    ensures Coherent(Snapshot(a, m, s.t))
  {
    HoldsElsewhere(s.m, m, s.t);
  }

  /** With the books right, every live table is covered. */
  lemma AccountedCovers(w: State, k: nat)
    requires Accounted(w) && Live(w, k)
    ensures Covered(w.a.counts, w.tables[k].value)
  {
    hide Refs;
    forall f | 0 <= f < |w.a.counts| ensures Refs(w.tables[k].value, f) <= w.a.counts[f] {
      AllRefsAtLeast(w.tables, k, f);
    }
  }

  lemma OperateAccounted(w: State, x: State, k: nat)
    requires Accounted(w) && OperateStep(w, x, k)
    ensures Accounted(x)
  {
    hide Refs, Coherent, WfAlloc;
    forall f | 0 <= f < |x.a.counts| ensures x.a.counts[f] == x.outside[f] + AllRefs(x.tables, f) {
      AllRefsSet(w.tables, k, x.tables[k], f);
      assert Balance(View(x, k), f) == Balance(View(w, k), f);
    }
  }

  /** The pages of one table are in use, so another table's operation, which is confined to its own pages and free
      frames, does not write to them. */
  lemma OperateElsewhere(w: State, x: State, k: nat, i: nat)
    requires Inv(w) && OperateStep(w, x, k) && Live(w, i) && i != k
    ensures forall p :: 0 <= p < |w.m| && TableFrame(w.tables[i].value, p) ==> x.m[p] == w.m[p]
    ensures forall p: nat :: TableFrame(w.tables[i].value, p) ==> !TableFrame(x.tables[k].value, p)
  {
    hide Refs, WfAlloc, Accounted;
    var t := w.tables[i].value;
    assert Coherent(View(w, i));
    forall p: nat | TableFrame(t, p)
      ensures p < |w.m| ==> x.m[p] == w.m[p]
      ensures !TableFrame(x.tables[k].value, p)
    {
      TableFrameReferenced(t, p);
      TableFrameInMemory(View(w, i), p);
      assert !TableFrame(w.tables[k].value, p);
      assert w.a.counts[p] > 0;
    }
  }

  lemma TableFrameInMemory(s: Snapshot, p: nat)
    requires Coherent(s) && TableFrame(s.t, p)
    ensures p < |s.m| == |s.a.counts|
  {
  }

  lemma OperateKeeps(w: State, x: State, k: nat)
    requires Inv(w) && OperateStep(w, x, k)
    ensures Inv(x)
  {
    hide Coherent, Refs, WfAlloc, Covered, TableFrame, Evolves;
    OperateAccounted(w, x, k);
    OperateShape(w, x, k);
    forall i | 0 <= i < |x.tables| && x.tables[i].Some? ensures Coherent(View(x, i)) {
      if i != k {
        OperateElsewhere(w, x, k, i);
        AccountedCovers(x, i);
        StaysCoherent(View(w, i), x.a, x.m);
      }
    }
    forall i, j, p: nat | 0 <= i < j < |x.tables| && x.tables[i].Some? && x.tables[j].Some? && TableFrame(x.tables[i].value, p)
      ensures !TableFrame(x.tables[j].value, p)
    {
      if i == k {
        OperateElsewhere(w, x, k, j);
      } else if j == k {
        OperateElsewhere(w, x, k, i);
      }
    }
  }

  lemma OperateShape(w: State, x: State, k: nat)
    requires OperateStep(w, x, k)
    ensures |x.m| == |w.m| && |x.a.counts| == |w.a.counts|
  {
  }

  lemma CreateKeeps(w: State, x: State, k: nat)
    requires Inv(w) && CreateStep(w, x, k)
    ensures Inv(x)
  {
    hide Coherent, Refs, WfAlloc, Covered, TableFrame, EmptyTable, AllocSpec;
    var g := AllocSpec(w.a, 4).value;
    var n, counted :| x.tables == w.tables + [Some(EmptyTable(g.frame, n, counted))]
                      && Coherent(Snapshot(x.a, x.m, EmptyTable(g.frame, n, counted)));
    var t := EmptyTable(g.frame, n, counted);
    GrantMeans(w.a, g);
    forall f | 0 <= f < |x.a.counts| ensures x.a.counts[f] == x.outside[f] + AllRefs(x.tables, f) {
      GrantCounts(w.a, 4, g, f);
      EmptyRefs(g.frame, n, counted, f);
      AllRefsAppend(w.tables, Some(t), f);
    }
    assert Accounted(x);
    forall i | 0 <= i < |x.tables| && x.tables[i].Some? ensures Coherent(View(x, i)) {
      if i < k {
        NewPagesElsewhere(w, g, i);
        AccountedCovers(x, i);
        StaysCoherent(View(w, i), x.a, x.m);
      }
    }
    forall i, p: nat | 0 <= i < k && x.tables[i].Some? && TableFrame(x.tables[i].value, p) ensures !TableFrame(t, p) {
      NewPagesElsewhere(w, g, i);
      EmptyPages(t, p);
    }
  }

  lemma GrantMeans(a: FrameState, g: Grant)
    requires Scannable(a, 4) && AllocSpec(a, 4) == Some(g)
    ensures WfAlloc(g.after) && |g.after.counts| == |a.counts| && g.frame + 4 <= |a.counts|
  {
    AllocFacts(a, 4);
  }

  lemma EmptyPages(t: Table, p: nat)
    requires forall i :: 0 <= i < |t.l1| ==> t.l1[i] == DFree
    ensures TableFrame(t, p) <==> t.base <= p < t.base + 4
  {
  }

  /** A granted block holds no live table's pages. */
  lemma NewPagesElsewhere(w: State, g: Grant, i: nat)
    requires Inv(w) && Live(w, i) && Scannable(w.a, 4) && AllocSpec(w.a, 4) == Some(g)
    ensures forall p: nat :: TableFrame(w.tables[i].value, p) ==> !(g.frame <= p < g.frame + 4)
  {
    assert Coherent(View(w, i));
    forall p: nat | g.frame <= p < g.frame + 4 ensures !TableFrame(w.tables[i].value, p) {
      GrantMeans(w.a, g);
      GrantCounts(w.a, 4, g, p);
      FreeFrameIsNoTablePage(View(w, i), p);
    }
  }

  lemma DestroyKeeps(w: State, x: State, k: nat)
    requires Inv(w) && DestroyStep(w, x, k)
    ensures Inv(x)
  {
    hide Coherent, Refs, WfAlloc, Covered, TableFrame;
    forall f | 0 <= f < |x.a.counts| ensures x.a.counts[f] == x.outside[f] + AllRefs(x.tables, f) {
      AllRefsSet(w.tables, k, None, f);
    }
    assert Accounted(x);
    forall i | 0 <= i < |x.tables| && x.tables[i].Some? ensures Coherent(View(x, i)) {
      AccountedCovers(x, i);
      StaysCoherent(View(w, i), x.a, x.m);
    }
  }

  lemma OutsideKeeps(w: State, x: State)
    requires Inv(w) && OutsideStep(w, x)
    ensures Inv(x)
  {
    hide Coherent, Refs, WfAlloc, Covered, TableFrame;
    assert Accounted(x);
    forall i | 0 <= i < |x.tables| && x.tables[i].Some? ensures Coherent(View(x, i)) {
      AccountedCovers(x, i);
      StaysCoherent(View(w, i), x.a, x.m);
    }
  }

  /** While something else holds frame 0, every live table can be destroyed. */
  lemma TableReleasable(w: State, k: nat)
    requires Inv(w) && Live(w, k) && w.outside[0] > 0
    ensures Releasable(w.a.counts, w.tables[k].value)
  {
    hide Refs;
    AccountedCovers(w, k);
    AllRefsAtLeast(w.tables, k, 0);
    assert w.a.counts[0] == w.outside[0] + AllRefs(w.tables, 0);
  }

  lemma StepKeeps(w: State, e: Event, x: State)
    requires Inv(w) && Step(w, e, x)
    ensures Inv(x)
  {
    hide Inv;
    match e
    case Operate(k) => OperateKeeps(w, x, k);
    case Create(k) => CreateKeeps(w, x, k);
    case Destroy(k) => DestroyKeeps(w, x, k);
    case Outside => OutsideKeeps(w, x);
  }

  /** A table made as the constructor makes it is a step of the world. */
  lemma Creates(w: State, x: State, g: Grant, n: nat, counted: bool)
    requires Inv(w) && Scannable(w.a, 4) && AllocSpec(w.a, 4) == Some(g)
    requires x.a == g.after && x.outside == w.outside && |x.m| == |w.m|
    requires x.tables == w.tables + [Some(EmptyTable(g.frame, n, counted))]
    requires Coherent(Snapshot(x.a, x.m, EmptyTable(g.frame, n, counted)))
    requires forall p :: 0 <= p < |w.m| && !(g.frame <= p < g.frame + 4) ==> x.m[p] == w.m[p]
    ensures Step(w, Create(|w.tables|), x) && Inv(x)
  {
    hide Inv, Coherent, AllocSpec, EmptyTable, WfAlloc;
    CreateKeeps(w, x, |w.tables|);
  }

  /** An operation that evolves one table is a step of the world. */
  lemma Operates(w: State, x: State, k: nat, t: Table)
    requires Inv(w) && Live(w, k) && WfAlloc(x.a)
    requires x.tables == w.tables[k := Some(t)] && x.outside == w.outside
    requires Coherent(Snapshot(x.a, x.m, t)) && Evolves(View(w, k), Snapshot(x.a, x.m, t))
    ensures Step(w, Operate(k), x) && Inv(x)
    ensures OnlyFreshFrames(View(w, k), Snapshot(x.a, x.m, t)) ==> TakesFresh(w, x, k)
  {
    hide Inv, Coherent, WfAlloc, Evolves;
    OperateKeeps(w, x, k);
  }

  /** A block that the boot code allocates for itself is a step of the world. */
  lemma OutsideAllocates(w: State, x: State, size: nat, g: Grant)
    requires Inv(w) && Scannable(w.a, size) && AllocSpec(w.a, size) == Some(g)
    requires x.a == g.after && x.tables == w.tables && g.frame < |w.m| && x.m == w.m[g.frame := FilledRow()]
    requires |x.outside| == |w.outside| && forall f :: 0 <= f < |w.outside| ==> x.outside[f] == w.outside[f] + One(InRun(f, g.frame, size))
    ensures Step(w, Outside, x) && Inv(x) && Unshared(w, x)
  {
    hide Coherent, Refs, TableFrame, AllocSpec, WfAlloc, Apart, FilledRow;
    AllocGrants(w.a, size, g);
    forall f | 0 <= f < |w.a.counts|
      ensures x.a.counts[f] - x.outside[f] == w.a.counts[f] - w.outside[f]
      ensures x.a.counts[f] <= w.a.counts[f] || (w.a.counts[f] == 0 && x.a.counts[f] == 1)
    {
      GrantCounts(w.a, size, g, f);
    }
    forall k, p | 0 <= k < |w.tables| && w.tables[k].Some? && 0 <= p < |w.m| && TableFrame(w.tables[k].value, p)
      ensures x.m[p] == w.m[p]
    {
      AccountedCovers(w, k);
      if w.a.counts[p] == 0 {
        FreeFrameIsNoTablePage(View(w, k), p);
      }
    }
    assert OutsideStep(w, x);
    OutsideKeeps(w, x);
  }

  lemma AllocGrants(a: FrameState, size: nat, g: Grant)
    requires Scannable(a, size) && AllocSpec(a, size) == Some(g)
    ensures WfAlloc(g.after) && |g.after.counts| == |a.counts| && g.frame < |a.counts| && a.counts[g.frame] == 0
  {
    AllocFacts(a, size);
    GrantCounts(a, size, g, g.frame);
  }

  // ---------------------------------------------------------------- runs

  /** ws is a run: each state follows from the one before by the event between them. */
  ghost predicate Run(ws: seq<State>, es: seq<Event>) {
    |ws| == |es| + 1 && forall i :: 0 <= i < |es| ==> Step(ws[i], es[i], ws[i + 1])
  }

  /** Reference accounting, coherence and separation hold in every state of every run. */
  lemma {:induction false} RunKeeps(ws: seq<State>, es: seq<Event>, i: nat)
    requires Run(ws, es) && Inv(ws[0]) && i < |ws|
    ensures Inv(ws[i])
  {
    hide Inv, Step;
    if i > 0 {
      RunKeeps(ws, es, i - 1);
      StepKeeps(ws[i - 1], es[i - 1], ws[i]);
    }
  }

  /** The counts are a function of the outside references and of the references of the live tables. */
  lemma SameReferencesSameCounts(w: State, x: State)
    requires Inv(w) && Inv(x) && x.outside == w.outside
    requires forall f :: 0 <= f < |w.a.counts| ==> AllRefs(x.tables, f) == AllRefs(w.tables, f)
    ensures x.a.counts == w.a.counts && NonZero(x.a.counts) == NonZero(w.a.counts)
  {
    hide Refs, AllCoherent, Apart, WfAlloc;
  }

  /** Every event makes a table, or is about a table numbered k or later. */
  ghost predicate OnlyNewTables(es: seq<Event>, k: nat) {
    forall i :: 0 <= i < |es| ==>
      match es[i]
      case Operate(j) => j >= k
      case Create(_) => true
      case Destroy(j) => j >= k
      case Outside => false
  }

  /** Such events leave the first k tables as they were. */
  lemma {:induction false} OldTablesStay(ws: seq<State>, es: seq<Event>, i: nat)
    requires Run(ws, es) && OnlyNewTables(es, |ws[0].tables|) && i < |ws|
    ensures ws[0].tables <= ws[i].tables && ws[i].outside == ws[0].outside
  {
    hide Evolves, Coherent, WfAlloc, AllocSpec, EmptyTable, LessTable;
    if i > 0 {
      OldTablesStay(ws, es, i - 1);
      assert Step(ws[i - 1], es[i - 1], ws[i]);
      assert match es[i - 1] case Operate(j) => j >= |ws[0].tables| case Create(_) => true
                             case Destroy(j) => j >= |ws[0].tables| case Outside => false;
    }
  }

  lemma {:induction false} NoRefsFromDead(ts: seq<Option<Table>>, k: nat, f: nat)
    requires k <= |ts| && forall i :: k <= i < |ts| ==> ts[i].None?
    ensures AllRefs(ts, f) == AllRefs(ts[..k], f)
  {
    if k < |ts| {
      var n := |ts| - 1;
      assert ts[..n][..k] == ts[..k];
      NoRefsFromDead(ts[..n], k, f);
    } else {
      assert ts[..k] == ts;
    }
  }

  /** Making any number of tables, using them in any order and any way that succeeds, and destroying them all restores
      every count, and so the number of frames in use, even when they shared frames with older live tables. */
  lemma LifecycleConserves(ws: seq<State>, es: seq<Event>)
    requires Run(ws, es) && Inv(ws[0]) && OnlyNewTables(es, |ws[0].tables|)
    requires forall i :: |ws[0].tables| <= i < |ws[|es|].tables| ==> ws[|es|].tables[i].None?
    ensures ws[|es|].a.counts == ws[0].a.counts && NonZero(ws[|es|].a.counts) == NonZero(ws[0].a.counts)
  {
    hide Inv, Refs, Run, OnlyNewTables;
    var n := |es|;
    RunLength(ws, es);
    RunKeeps(ws, es, n);
    OldTablesStay(ws, es, n);
    assert ws[n].tables[..|ws[0].tables|] == ws[0].tables;
    forall f: nat ensures AllRefs(ws[n].tables, f) == AllRefs(ws[0].tables, f) {
      NoRefsFromDead(ws[n].tables, |ws[0].tables|, f);
    }
    SameReferencesSameCounts(ws[0], ws[n]);
  }

  lemma RunLength(ws: seq<State>, es: seq<Event>)
    requires Run(ws, es)
    ensures |ws| == |es| + 1
  {
  }

  // ---------------------------------------------------------------- isolation

  /** No frame has more than one reference. */
  ghost predicate Exclusive(w: State) {
    forall f :: 0 <= f < |w.a.counts| ==> w.a.counts[f] <= 1
  }

  /** An event that shares no frame: it references only frames that were free. */
  ghost predicate Unshared(w: State, x: State) {
    |x.a.counts| == |w.a.counts|
    && forall f :: 0 <= f < |w.a.counts| ==> x.a.counts[f] <= w.a.counts[f] || (w.a.counts[f] == 0 && x.a.counts[f] == 1)
  }

  /** Table k has taken references only on frames that were free. */
  ghost predicate TakesFresh(w: State, x: State, k: nat) {
    Live(w, k) && Live(x, k) && OnlyFreshFrames(View(w, k), View(x, k))
  }

  /** Table k has committed pages to memory that was free only, and only if it counts references. */
  ghost predicate CommitsFresh(w: State, x: State, k: nat) {
    Live(w, k) && Live(x, k) && FreshCommits(View(w, k), View(x, k))
  }

  /** An allocating operation shares no frame, and neither does making or destroying a table. */
  lemma AllocatingUnshared(w: State, e: Event, x: State)
    requires Inv(w) && Step(w, e, x) && e != Outside
    requires e.Operate? ==> TakesFresh(w, x, e.k)
    ensures Unshared(w, x)
  {
    hide Evolves, Coherent, WfAlloc, AllocSpec, EmptyTable, Refs;
    match e
    case Operate(k) =>
    case Create(k) =>
      GrantMeans(w.a, AllocSpec(w.a, 4).value);
      forall f | 0 <= f < |w.a.counts| ensures x.a.counts[f] == w.a.counts[f] || (w.a.counts[f] == 0 && x.a.counts[f] == 1) {
        GrantCounts(w.a, 4, AllocSpec(w.a, 4).value, f);
      }
    case Destroy(k) =>
    case Outside =>
  }

  /** In a run that shares no frame, no frame ever has more than one reference. */
  lemma {:induction false} UnsharedRunExclusive(ws: seq<State>, i: nat)
    requires |ws| > 0 && Exclusive(ws[0]) && i < |ws|
    requires forall j :: 0 <= j < |ws| - 1 ==> Unshared(ws[j], ws[j + 1])
    ensures Exclusive(ws[i])
  {
    if i > 0 {
      UnsharedRunExclusive(ws, i - 1);
      assert Unshared(ws[i - 1], ws[i - 1 + 1]);
    }
  }

  /** Page v of live, counted table k is backed by frame f of memory. */
  predicate Backs(w: State, k: nat, v: nat, f: nat) {
    Live(w, k) && w.tables[k].value.counted && v < PageCount(w.tables[k].value)
    && At(w.tables[k].value, v) == Committed(f) && f < |w.a.counts|
  }

  /** Translation is injective over all pages of all live counted tables. */
  lemma TranslationInjective(w: State, i: nat, u: nat, k: nat, v: nat, f: nat)
    requires Inv(w) && Exclusive(w) && Backs(w, i, u, f) && Backs(w, k, v, f)
    ensures i == k && u == v
  {
    hide Refs, At, WfAlloc, AllCoherent, Apart;
    assert w.a.counts[f] == w.outside[f] + AllRefs(w.tables, f);
    if i == k {
      AllRefsAtLeast(w.tables, i, f);
      if u < v {
        MappedTwice(w.tables[i].value, u, v, f);
      } else if v < u {
        MappedTwice(w.tables[i].value, v, u, f);
      }
    } else {
      MappedReferenced(w.tables[i].value, u, f);
      MappedReferenced(w.tables[k].value, v, f);
      AllRefsAtLeastTwo(w.tables, if i < k then i else k, if i < k then k else i, f);
    }
  }

  /** No page of a live counted table is backed by a frame that holds part of any live table. */
  lemma TablesUnreachable(w: State, i: nat, u: nat, k: nat, f: nat)
    requires Inv(w) && Exclusive(w) && Backs(w, i, u, f) && Live(w, k)
    ensures !TableFrame(w.tables[k].value, f)
  {
    hide Refs, At, WfAlloc, AllCoherent, Apart;
    assert w.a.counts[f] == w.outside[f] + AllRefs(w.tables, f);
    if TableFrame(w.tables[k].value, f) {
      if i == k {
        AllRefsAtLeast(w.tables, i, f);
        MappedTableFrame(w.tables[i].value, u, f);
      } else {
        MappedReferenced(w.tables[i].value, u, f);
        TableFrameReferenced(w.tables[k].value, f);
        AllRefsAtLeastTwo(w.tables, if i < k then i else k, if i < k then k else i, f);
      }
    }
  }

  // ---------------------------------------------------------------- runs that commit only through allocate

  /** Every page that t has committed is counted, and backed by a frame of memory of n frames. */
  ghost predicate OwnsPages(t: Table, n: nat) {
    forall v: nat :: v < PageCount(t) && At(t, v).Committed? ==> t.counted && At(t, v).frame < n
  }

  ghost predicate AllOwn(w: State) {
    forall k: nat :: Live(w, k) ==> OwnsPages(w.tables[k].value, |w.a.counts|)
  }

  /** The state of a run in which nothing has been mapped: no frame is shared, and all that is committed is owned. */
  ghost predicate Isolated(w: State) {
    Inv(w) && Exclusive(w) && AllOwn(w)
  }

  /** A step of such a run: an operation commits fresh memory only, and whoever else allocates shares nothing. */
  ghost predicate AllocateStep(w: State, e: Event, x: State) {
    Step(w, e, x)
    && match e
       case Operate(k) => TakesFresh(w, x, k) && CommitsFresh(w, x, k)
       case Create(_) => true
       case Destroy(_) => true
       case Outside => Unshared(w, x)
  }

  ghost predicate AllocateRun(ws: seq<State>, es: seq<Event>) {
    |ws| == |es| + 1 && forall i :: 0 <= i < |es| ==> AllocateStep(ws[i], es[i], ws[i + 1])
  }

  lemma OperateOwns(w: State, x: State, k: nat)
    requires AllOwn(w) && OperateStep(w, x, k) && CommitsFresh(w, x, k)
    ensures AllOwn(x)
  {
    hide At, Coherent, WfAlloc;
    var t := x.tables[k].value;
    forall v: nat | v < PageCount(t) && At(t, v).Committed? ensures t.counted && At(t, v).frame < |x.a.counts| {
      assert FreshAt(View(w, k), t, v);
      assert OwnsPages(w.tables[k].value, |w.a.counts|);
    }
    forall i: nat | Live(x, i) ensures OwnsPages(x.tables[i].value, |x.a.counts|) {
      assert i != k ==> Live(w, i);
    }
  }

  lemma StepOwns(w: State, e: Event, x: State)
    requires Inv(w) && AllOwn(w) && AllocateStep(w, e, x)
    ensures AllOwn(x)
  {
    hide At, Coherent, WfAlloc, AllocSpec, Refs, OwnsPages, TableFrame;
    match e
    case Operate(k) => OperateOwns(w, x, k);
    case Create(k) =>
      GrantMeans(w.a, AllocSpec(w.a, 4).value);
      EmptyOwns(x.tables[k].value, |x.a.counts|);
      forall i: nat | Live(x, i) ensures OwnsPages(x.tables[i].value, |x.a.counts|) {
        assert i != k ==> Live(w, i) && x.tables[i] == w.tables[i];
      }
    case Destroy(k) =>
      forall i: nat | Live(x, i) ensures OwnsPages(x.tables[i].value, |x.a.counts|) {
        assert i != k && Live(w, i);
      }
    case Outside =>
      forall i: nat | Live(x, i) ensures OwnsPages(x.tables[i].value, |x.a.counts|) {
        assert Live(w, i);
      }
  }

  lemma EmptyOwns(t: Table, n: nat)
    requires forall i :: 0 <= i < |t.l1| ==> t.l1[i] == DFree
    ensures OwnsPages(t, n)
  {
    forall v: nat | v < PageCount(t) ensures At(t, v) == Free {
      EmptyAt(t, v);
    }
  }

  lemma AllocateStepKeeps(w: State, e: Event, x: State)
    requires Isolated(w) && AllocateStep(w, e, x)
    ensures Isolated(x)
  {
    hide Inv, Step, AllOwn, TakesFresh, CommitsFresh;
    StepKeeps(w, e, x);
    StepOwns(w, e, x);
    if e != Outside {
      AllocatingUnshared(w, e, x);
    }
    assert Unshared(w, x);
  }

  lemma {:induction false} AllocateRunKeeps(ws: seq<State>, es: seq<Event>, i: nat)
    requires AllocateRun(ws, es) && Isolated(ws[0]) && i < |ws|
    ensures Isolated(ws[i])
  {
    hide Isolated, AllocateStep;
    if i > 0 {
      AllocateRunKeeps(ws, es, i - 1);
      AllocateStepKeeps(ws[i - 1], es[i - 1], ws[i]);
    }
  }

  /** In every state of every run that commits only through allocate, translation is injective over all addresses of all
      live tables, and no address translates into a frame that holds part of any live table. */
  lemma AllocateRunIsolated(ws: seq<State>, es: seq<Event>, n: nat, i: nat, va: nat, k: nat, wa: nat)
    requires AllocateRun(ws, es) && Isolated(ws[0]) && n < |ws| && Live(ws[n], i) && Live(ws[n], k)
    requires Translate(ws[n].tables[i].value, va).Success?
    ensures Translate(ws[n].tables[k].value, wa) == Translate(ws[n].tables[i].value, va) ==> i == k && wa == va
    ensures !TableFrame(ws[n].tables[k].value, Translate(ws[n].tables[i].value, va).value / PAGE_SIZE)
  {
    hide Isolated, AllocateStep, Translate, TableFrame;
    AllocateRunKeeps(ws, es, n);
    IsolatedReach(ws[n], i, va);
    var f := Translate(ws[n].tables[i].value, va).value / PAGE_SIZE;
    IsolatedMeans(ws[n]);
    TablesUnreachable(ws[n], i, va / PAGE_SIZE, k, f);
    if Translate(ws[n].tables[k].value, wa) == Translate(ws[n].tables[i].value, va) {
      IsolatedReach(ws[n], k, wa);
      TranslationInjective(ws[n], i, va / PAGE_SIZE, k, wa / PAGE_SIZE, f);
    }
  }

  lemma IsolatedMeans(w: State)
    requires Isolated(w)
    ensures Inv(w) && Exclusive(w)
  {
  }

  lemma IsolatedReach(w: State, i: nat, va: nat)
    requires Isolated(w) && Live(w, i) && Translate(w.tables[i].value, va).Success?
    ensures var pa := Translate(w.tables[i].value, va).value;
            Backs(w, i, va / PAGE_SIZE, pa / PAGE_SIZE) && pa % PAGE_SIZE == va % PAGE_SIZE
  {
    hide Inv, Exclusive, At;
    TranslateFrame(w.tables[i].value, va);
    assert OwnsPages(w.tables[i].value, |w.a.counts|);
  }

  /** So a store through a live counted table never reaches that table. */
  lemma UnsharedSelfIsolated(w: State, k: nat)
    requires Inv(w) && Exclusive(w) && Live(w, k) && w.tables[k].value.counted
    ensures SelfIsolated(w.tables[k].value)
  {
    hide Inv, At, TableFrame, Exclusive, Coherent;
    var t := w.tables[k].value;
    forall v, p: nat | 0 <= v < PageCount(t) && At(t, v) == Committed(p) ensures !TableFrame(t, p) {
      if TableFrame(t, p) {
        LiveFrame(w, k, p);
        TablesUnreachable(w, k, v, k, p);
      }
    }
  }

  lemma LiveFrame(w: State, k: nat, p: nat)
    requires Inv(w) && Live(w, k) && TableFrame(w.tables[k].value, p)
    ensures p < |w.a.counts|
  {
    assert Coherent(View(w, k));
    TableFrameInMemory(View(w, k), p);
  }

  // ---------------------------------------------------------------- monotonicity

  /** While it lives, a table's pages only move forward. */
  lemma StepForward(w: State, e: Event, x: State, k: nat)
    requires Step(w, e, x) && Live(w, k) && Live(x, k)
    ensures PageCount(x.tables[k].value) == PageCount(w.tables[k].value)
    ensures forall v :: 0 <= v < PageCount(w.tables[k].value) ==> Forward(At(w.tables[k].value, v), At(x.tables[k].value, v))
  {
    hide At, Coherent, WfAlloc, AllocSpec, EmptyTable, LessTable;
  }

  lemma DeadStaysDead(w: State, e: Event, x: State, k: nat)
    requires Step(w, e, x) && k < |w.tables| && w.tables[k].None?
    ensures k < |x.tables| && x.tables[k].None?
  {
    hide At, Coherent, WfAlloc, AllocSpec, EmptyTable, LessTable, Evolves;
  }

  /** Over any part of any run in which table k is live at both ends, its pages have moved forward. */
  lemma {:induction false} RunForward(ws: seq<State>, es: seq<Event>, i: nat, j: nat, k: nat)
    requires Run(ws, es) && i <= j < |ws| && Live(ws[i], k) && Live(ws[j], k)
    ensures PageCount(ws[j].tables[k].value) == PageCount(ws[i].tables[k].value)
    ensures forall v :: 0 <= v < PageCount(ws[i].tables[k].value) ==>
                          Forward(At(ws[i].tables[k].value, v), At(ws[j].tables[k].value, v))
  {
    hide At, Step;
    if i < j {
      assert Step(ws[j - 1], es[j - 1], ws[j - 1 + 1]);
      TablesNeverVanish(ws, es, i, j - 1, k);
      if ws[j - 1].tables[k].None? {
        DeadStaysDead(ws[j - 1], es[j - 1], ws[j], k);
      }
      RunForward(ws, es, i, j - 1, k);
      StepForward(ws[j - 1], es[j - 1], ws[j], k);
    }
  }

  lemma {:induction false} TablesNeverVanish(ws: seq<State>, es: seq<Event>, i: nat, j: nat, k: nat)
    requires Run(ws, es) && i <= j < |ws| && k < |ws[i].tables|
    ensures k < |ws[j].tables|
  {
    if i < j {
      TablesNeverVanish(ws, es, i, j - 1, k);
      assert Step(ws[j - 1], es[j - 1], ws[j - 1 + 1]);
    }
  }

  /** Once an address translates, it translates to the same physical address for as long as the table lives. */
  lemma TranslationStable(ws: seq<State>, es: seq<Event>, i: nat, j: nat, k: nat, va: nat)
    requires Run(ws, es) && i <= j < |ws| && Live(ws[i], k) && Live(ws[j], k)
    requires Translate(ws[i].tables[k].value, va).Success?
    ensures Translate(ws[j].tables[k].value, va) == Translate(ws[i].tables[k].value, va)
  {
    RunForward(ws, es, i, j, k);
    hide At, Run;
    assert Forward(At(ws[i].tables[k].value, va / PAGE_SIZE), At(ws[j].tables[k].value, va / PAGE_SIZE));
  }
}
