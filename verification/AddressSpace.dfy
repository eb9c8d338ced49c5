/** A page table as a value, the flat page map it stands for, and the frame references it holds. */
module AddressSpace {
  import opened Bits
  import opened Descriptors

  datatype Granularity = Page | Section | Supersection

  /** What one virtual page is. A reservation keeps the granularity it can be committed at: a page of a
      second-level table, or a whole section. */
  datatype PageState = Free | Reserved(unit: Granularity) | Committed(frame: nat)

  datatype Table = Table(base: nat, counted: bool, l1: seq<Desc>)

  /** The number of pages in n allocation units. */
  function Span(g: Granularity, n: nat): nat {
    match g
    case Page => n
    case Section => 0x100 * n
    case Supersection => 0x1000 * n
  }

  /** The first page of the allocation unit that contains page v. */
  function UnitBase(g: Granularity, v: nat): nat {
    match g
    case Page => v
    case Section => v - v % 0x100
    case Supersection => v - v % 0x1000
  }

  /** The n units from the one that contains page v on do not reach past the top of the address space. */
  predicate Addressable(g: Granularity, v: nat, n: nat) {
    UnitBase(g, v) + Span(g, n) <= 0x100000
  }

  /** The granularity recorded by a reservation made for units of size g. */
  function Lease(g: Granularity): Granularity {
    if g == Page then Page else Section
  }

  function PageCount(t: Table): nat {
    0x100 * |t.l1|
  }

  function EntryState(e: Entry): PageState {
    match e
    case EFree => Free
    case EReserved => Reserved(Page)
    case EPage(p) => Committed(p)
  }

  /** The state of page j of section i, whose descriptor is d. */
  function DescAt(d: Desc, i: nat, j: nat): PageState {
    match d
    case DFree => Free
    case DReserved => Reserved(Section)
    case DSecond(_, es) => if j < |es| then EntryState(es[j]) else Free
    case DSection(p) => Committed(p + j)
    case DSuper(p) => Committed(p + 0x100 * (i % 16) + j)
  }

  /** The flat page map: the state of virtual page v. */
  function At(t: Table, v: nat): PageState
    requires v < PageCount(t)
  {
    DescAt(t.l1[v / 0x100], v / 0x100, v % 0x100)
  }

  lemma AtPage(t: Table, i: nat, j: nat)
    requires i < |t.l1| && j < 0x100
    ensures 0x100 * i + j < PageCount(t)
    ensures At(t, 0x100 * i + j) == DescAt(t.l1[i], i, j)
  {
    DivMod(0x100, i, j);
  }

  // ---------------------------------------------------------------- well-formedness

  /** Frame p holds part of the first-level table or a second-level table of t. */
  ghost predicate TableFrame(t: Table, p: nat) {
    t.base <= p < t.base + 4 || exists i :: 0 <= i < |t.l1| && t.l1[i].DSecond? && t.l1[i].frame == p
  }

  /** No two table pages share a frame. */
  ghost predicate Separate(t: Table) {
    && (forall i :: 0 <= i < |t.l1| && t.l1[i].DSecond? ==> !(t.base <= t.l1[i].frame < t.base + 4))
    && (forall i, k :: 0 <= i < k < |t.l1| && t.l1[i].DSecond? && t.l1[k].DSecond? ==> t.l1[i].frame != t.l1[k].frame)
  }

  /** Supersection descriptors occur only as aligned groups of sixteen equal ones. */
  ghost predicate Uniform(l1: seq<Desc>) {
    forall i, k :: 0 <= i < |l1| && 0 <= k < |l1| && i / 16 == k / 16 && l1[i].DSuper? ==> l1[k] == l1[i]
  }

  /** No mapping touches the first frame past the end of RAM, whose count the allocator must not look at. */
  ghost predicate NoEdge(t: Table, n: nat) {
    forall v :: 0 <= v < PageCount(t) ==> At(t, v) != Committed(n)
  }

  predicate WfDescs(t: Table) {
    forall i :: 0 <= i < |t.l1| ==> WfDesc(t.l1[i])
  }

  /** The invariant of a table in a machine of n frames, up to the grouping of supersections. */
  ghost predicate WfCore(t: Table, n: nat) {
    && (|t.l1| == FIRST_LEVEL_SUPERVISOR_ENTRIES || |t.l1| == FIRST_LEVEL_USER_ENTRIES)
    && 0 < t.base && t.base % 4 == 0 && t.base + 4 <= n <= 0x100000
    && WfDescs(t)
    && (forall i :: 0 <= i < |t.l1| && t.l1[i].DSecond? ==> t.l1[i].frame < n)
    && Separate(t)
    && (t.counted ==> NoEdge(t, n))
  }

  // ---------------------------------------------------------------- updates

  function SetDesc(t: Table, i: nat, d: Desc): Table
    requires i < |t.l1|
  {
    t.(l1 := t.l1[i := d])
  }

  function SetEntry(t: Table, i: nat, j: nat, e: Entry): Table
    requires i < |t.l1| && t.l1[i].DSecond? && j < |t.l1[i].entries|
  {
    SetDesc(t, i, t.l1[i].(entries := t.l1[i].entries[j := e]))
  }

  /** Descriptors i .. i + n all replaced by d. */
  function FillDescs(l1: seq<Desc>, i: nat, n: nat, d: Desc): (r: seq<Desc>)
    requires i + n <= |l1|
    ensures |r| == |l1|
    ensures forall k :: 0 <= k < |l1| ==> r[k] == if i <= k < i + n then d else l1[k]
  {
    l1[..i] + seq(n, _ => d) + l1[i + n..]
  }

  /** Every page of the unit of size g that contains v is in the table and reserved at that granularity. */
  ghost predicate Committable(t: Table, g: Granularity, v: nat) {
    && UnitBase(g, v) + Span(g, 1) <= PageCount(t)
    && forall u :: UnitBase(g, v) <= u < UnitBase(g, v) + Span(g, 1) ==> At(t, u) == Reserved(Lease(g))
  }

  /** The unit of size g that contains v, committed to the unit of physical frames that contains p. */
  function Commit(t: Table, g: Granularity, v: nat, p: nat): (r: Table)
    ensures r.base == t.base && r.counted == t.counted && |r.l1| == |t.l1|
  {
    if v >= PageCount(t) then t else
    match g
    case Page =>
      var d := t.l1[v / 0x100];
      if d.DSecond? && v % 0x100 < |d.entries| then SetEntry(t, v / 0x100, v % 0x100, EPage(p)) else t
    case Section => SetDesc(t, v / 0x100, DSection(UnitBase(g, p)))
    case Supersection =>
      var i := v / 0x1000 * 16;
      if i + 16 <= |t.l1| then t.(l1 := FillDescs(t.l1, i, 16, DSuper(UnitBase(g, p)))) else t
  }

  /** Successive units starting at v, committed to the given physical units. */
  function CommitRun(t: Table, g: Granularity, v: nat, ps: seq<nat>): (r: Table)
    ensures r.base == t.base && r.counted == t.counted && |r.l1| == |t.l1|
  {
    if ps == [] then t
    else var k := |ps| - 1; Commit(CommitRun(t, g, v, ps[..k]), g, v + Span(g, k), ps[k])
  }

  /** How many of the n units starting at v, counted from the first, can be committed before one cannot. */
  ghost function Ready(t: Table, g: Granularity, v: nat, n: nat): (c: nat)
    ensures c <= n
  {
    if n == 0 then 0
    else
      var c := Ready(t, g, v, n - 1);
      if c == n - 1 && Committable(t, g, v + Span(g, n - 1)) then n else c
  }

  // ---------------------------------------------------------------- the flat effect of a commit

  lemma UnitBaseFacts(g: Granularity, v: nat)
    ensures UnitBase(g, v) <= v < UnitBase(g, v) + Span(g, 1)
    ensures g == Section ==> UnitBase(g, v) == 0x100 * (v / 0x100)
    ensures g == Supersection ==> UnitBase(g, v) == 0x100 * (v / 0x1000 * 16)
  {
  }

  lemma UnitBaseStep(g: Granularity, v: nat, k: nat)
    ensures UnitBase(g, v + Span(g, k)) == UnitBase(g, v) + Span(g, k)
  {
    match g
    case Page =>
    case Section =>
      assert v + 0x100 * k == 0x100 * (v / 0x100 + k) + v % 0x100;
      DivMod(0x100, v / 0x100 + k, v % 0x100);
    case Supersection =>
      assert v + 0x1000 * k == 0x1000 * (v / 0x1000 + k) + v % 0x1000;
      DivMod(0x1000, v / 0x1000 + k, v % 0x1000);
  }

  lemma CommittablePage(t: Table, v: nat)
    requires WfDescs(t)
    ensures Committable(t, Page, v) <==>
            v < PageCount(t) && t.l1[v / 0x100].DSecond? && t.l1[v / 0x100].entries[v % 0x100].EReserved?
  {
    assert v < PageCount(t) ==> (Committable(t, Page, v) <==> At(t, v) == Reserved(Page));
  }

  /** A whole section is reserved as such exactly when its descriptor says so. */
  lemma SectionReserved(t: Table, i: nat)
    requires WfDescs(t) && i < |t.l1|
    ensures t.l1[i].DReserved? <==> forall u :: 0x100 * i <= u < 0x100 * i + 0x100 ==> At(t, u) == Reserved(Section)
  {
    AtPage(t, i, 0);
    if t.l1[i].DReserved? {
      forall u | 0x100 * i <= u < 0x100 * i + 0x100 ensures At(t, u) == Reserved(Section) {
        AtPage(t, i, u - 0x100 * i);
      }
    }
  }

  lemma CommittableSection(t: Table, v: nat)
    requires WfDescs(t)
    ensures Committable(t, Section, v) <==> v < PageCount(t) && t.l1[v / 0x100].DReserved?
  {
    UnitBaseFacts(Section, v);
    if v < PageCount(t) {
      SectionReserved(t, v / 0x100);
    }
  }

  predicate AllReserved(l1: seq<Desc>, i: nat, n: nat) {
    i + n <= |l1| && forall k :: i <= k < i + n ==> l1[k].DReserved?
  }

  lemma CommittableSuper(t: Table, v: nat)
    requires WfDescs(t) && |t.l1| % 16 == 0
    ensures Committable(t, Supersection, v) <==> AllReserved(t.l1, v / 0x1000 * 16, 16)
  {
    UnitBaseFacts(Supersection, v);
    var i := v / 0x1000 * 16;
    if Committable(t, Supersection, v) {
      forall k | i <= k < i + 16 ensures t.l1[k].DReserved? {
        SectionReserved(t, k);
      }
    }
    if AllReserved(t.l1, i, 16) {
      forall u | 0x100 * i <= u < 0x100 * i + 0x1000 ensures At(t, u) == Reserved(Section) {
        var k := u / 0x100;
        SectionReserved(t, k);
      }
    }
  }

  /** Committing one unit changes the flat map of exactly that unit. */
  lemma CommitAt(t: Table, g: Granularity, v: nat, p: nat, u: nat)
    requires WfDescs(t) && |t.l1| % 16 == 0
    requires Committable(t, g, v) && u < PageCount(t)
    ensures At(Commit(t, g, v, p), u) ==
            if UnitBase(g, v) <= u < UnitBase(g, v) + Span(g, 1) then Committed(UnitBase(g, p) + (u - UnitBase(g, v)))
            else At(t, u)
  {
    UnitBaseFacts(g, v);
    match g
    case Page => CommittablePage(t, v);
    case Section =>
      CommittableSection(t, v);
    case Supersection =>
      CommittableSuper(t, v);
      var i := v / 0x1000 * 16;
      var k := u / 0x100;
      if i <= k < i + 16 {
        DivMod(16, v / 0x1000, k - i);
      }
  }

  // ---------------------------------------------------------------- runs of commits

  /** The unit of size g in which offset d falls. */
  function UnitIndex(g: Granularity, d: nat): nat {
    match g
    case Page => d
    case Section => d / 0x100
    case Supersection => d / 0x1000
  }

  lemma UnitIndexFacts(g: Granularity, d: nat, n: nat)
    ensures UnitIndex(g, d) < n <==> d < Span(g, n)
    ensures UnitIndex(g, d) == n <==> Span(g, n) <= d < Span(g, n + 1)
    ensures Span(g, n + 1) == Span(g, n) + Span(g, 1)
  {
  }

  lemma {:induction false} ReadyMeans(t: Table, g: Granularity, v: nat, n: nat)
    ensures var c := Ready(t, g, v, n);
            && (forall k :: 0 <= k < c ==> Committable(t, g, v + Span(g, k)))
            && (c < n ==> !Committable(t, g, v + Span(g, c)))
  {
    if n != 0 {
      ReadyMeans(t, g, v, n - 1);
    }
  }

  lemma {:induction false} ReadyIs(t: Table, g: Granularity, v: nat, n: nat, c: nat)
    requires c <= n && forall k :: 0 <= k < c ==> Committable(t, g, v + Span(g, k))
    requires c < n ==> !Committable(t, g, v + Span(g, c))
    ensures Ready(t, g, v, n) == c
  {
    if n != 0 {
      ReadyIs(t, g, v, n - 1, if c == n then n - 1 else c);
    }
  }

  lemma CommitWfDescs(t: Table, g: Granularity, v: nat, p: nat)
    requires WfDescs(t) && p < 0x100000
    ensures WfDescs(Commit(t, g, v, p))
  {
    UnitBaseFacts(g, p);
  }

  /** The flat map after a run of commits of committable units: exactly the run's pages have changed. */
  ghost predicate RunEffect(t: Table, r: Table, g: Granularity, v: nat, ps: seq<nat>) {
    && PageCount(r) == PageCount(t)
    && forall u :: 0 <= u < PageCount(t) ==> At(r, u) == RunState(t, g, v, ps, u)
  }

  function RunState(t: Table, g: Granularity, v: nat, ps: seq<nat>, u: nat): PageState
    requires u < PageCount(t)
  {
    var b := UnitBase(g, v);
    if b <= u && UnitIndex(g, u - b) < |ps|
    then var k := UnitIndex(g, u - b); Committed(UnitBase(g, ps[k]) + (u - b - Span(g, k)))
    else At(t, u)
  }

  lemma {:induction false} CommitRunAt(t: Table, g: Granularity, v: nat, ps: seq<nat>)
    requires WfDescs(t) && |t.l1| % 16 == 0
    requires forall k :: 0 <= k < |ps| ==> ps[k] < 0x100000 && Committable(t, g, v + Span(g, k))
    ensures WfDescs(CommitRun(t, g, v, ps))
    ensures RunEffect(t, CommitRun(t, g, v, ps), g, v, ps)
  {
    hide Commit, Committable, RunState, WfDescs, UnitBase, Span, At;
    if ps == [] {
      forall u | 0 <= u < PageCount(t) ensures At(t, u) == RunState(t, g, v, ps, u) {
        RunStateNone(t, g, v, u);
      }
    } else {
      var k := |ps| - 1;
      var r := CommitRun(t, g, v, ps[..k]);
      CommitRunAt(t, g, v, ps[..k]);
      StillCommittable(t, g, v, ps[..k], k);
      CommitWfDescs(r, g, v + Span(g, k), ps[k]);
      forall u | 0 <= u < PageCount(t) ensures At(CommitRun(t, g, v, ps), u) == RunState(t, g, v, ps, u) {
        CommitAt(r, g, v + Span(g, k), ps[k], u);
        RunStateStep(t, g, v, ps, u);
        assert At(r, u) == RunState(t, g, v, ps[..k], u);
      }
    }
  }

  lemma RunStateNone(t: Table, g: Granularity, v: nat, u: nat)
    requires u < PageCount(t)
    ensures RunState(t, g, v, [], u) == At(t, u)
  {
  }

  lemma RunStateStep(t: Table, g: Granularity, v: nat, ps: seq<nat>, u: nat)
    requires ps != [] && u < PageCount(t)
    ensures var k := |ps| - 1;
            var b := UnitBase(g, v + Span(g, k));
            RunState(t, g, v, ps, u) ==
            if b <= u < b + Span(g, 1) then Committed(UnitBase(g, ps[k]) + (u - b)) else RunState(t, g, v, ps[..k], u)
  {
    var k := |ps| - 1;
    UnitBaseStep(g, v, k);
    if UnitBase(g, v) <= u {
      UnitIndexFacts(g, u - UnitBase(g, v), k);
      UnitIndexFacts(g, u - UnitBase(g, v), k + 1);
    }
  }

  /** A unit past the run is committable after the run exactly when it was before. */
  lemma StillCommittable(t: Table, g: Granularity, v: nat, ps: seq<nat>, k: nat)
    requires |ps| <= k && RunEffect(t, CommitRun(t, g, v, ps), g, v, ps)
    ensures Committable(CommitRun(t, g, v, ps), g, v + Span(g, k)) <==> Committable(t, g, v + Span(g, k))
  {
    var r := CommitRun(t, g, v, ps);
    UnitBaseStep(g, v, k);
    forall u | UnitBase(g, v + Span(g, k)) <= u && u < PageCount(t) ensures At(r, u) == At(t, u) {
      assert At(r, u) == RunState(t, g, v, ps, u);
      UnitIndexFacts(g, u - UnitBase(g, v), |ps|);
      SpanMono(g, |ps|, k);
    }
  }

  lemma SpanMono(g: Granularity, a: nat, b: nat)
    requires a <= b
    ensures Span(g, a) <= Span(g, b)
  {
  }

  lemma CommitRunSnoc(t: Table, g: Granularity, v: nat, ps: seq<nat>, p: nat)
    ensures CommitRun(t, g, v, ps + [p]) == Commit(CommitRun(t, g, v, ps), g, v + Span(g, |ps|), p)
  {
    hide Commit, Span;
    assert (ps + [p])[..|ps|] == ps;
  }
}
