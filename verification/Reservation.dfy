/** What a reservation does to a table, and what it needs. */
module Reservation {
  import opened Bits
  import opened Descriptors
  import opened Outcomes
  import opened AddressSpace
  import opened Frames
  import opened Evolution

  /** Pages lo .. lo + n are all in the table and free. */
  ghost predicate AllFree(t: Table, lo: nat, n: nat) {
    (n > 0 ==> lo + n <= PageCount(t)) && forall u :: lo <= u < lo + n ==> At(t, u) == Free
  }

  /** Section i contains one of the pages lo .. lo + n. */
  predicate Meets(i: nat, lo: nat, n: nat) {
    0 < n && 0x100 * i < lo + n && lo < 0x100 * i + 0x100
  }

  ghost predicate SameTable(t: Table, r: Table) {
    r.base == t.base && r.counted == t.counted && |r.l1| == |t.l1|
  }

  /** r is t with pages lo .. lo + n reserved, and every section they lie in split into pages. */
  ghost predicate ReservedPages(t: Table, r: Table, lo: nat, n: nat) {
    && SameTable(t, r)
    && (forall u :: 0 <= u < PageCount(t) ==> At(r, u) == if lo <= u < lo + n then Reserved(Page) else At(t, u))
    && (forall i :: 0 <= i < |t.l1| ==> SectionAfter(t.l1[i], r.l1[i], Meets(i, lo, n)))
  }

  /** A section that a page reservation meets becomes, or stays, a second-level table; others do not change. */
  ghost predicate SectionAfter(d: Desc, e: Desc, met: bool) {
    if met then e.DSecond? && (d.DFree? || (d.DSecond? && e.frame == d.frame)) else e == d
  }

  lemma ReservedNothing(t: Table, lo: nat)
    ensures ReservedPages(t, t, lo, 0)
  {
    forall i | 0 <= i < |t.l1| ensures SectionAfter(t.l1[i], t.l1[i], Meets(i, lo, 0)) {
    }
  }

  /** A reservation that ends at a section boundary, followed by one that starts there. */
  lemma ReservedThen(t: Table, q: Table, r: Table, lo: nat, k: nat, n: nat)
    requires ReservedPages(t, q, lo, k) && ReservedPages(q, r, lo + k, n)
    requires k == 0 || (lo + k) % 0x100 == 0
    ensures ReservedPages(t, r, lo, k + n)
  {
    hide At;
    forall i | 0 <= i < |t.l1| ensures SectionAfter(t.l1[i], r.l1[i], Meets(i, lo, k + n)) {
      assert SectionAfter(t.l1[i], q.l1[i], Meets(i, lo, k));
      assert SectionAfter(q.l1[i], r.l1[i], Meets(i, lo + k, n));
    }
    forall u | 0 <= u < PageCount(t) ensures At(r, u) == if lo <= u < lo + k + n then Reserved(Page) else At(t, u) {
      assert At(q, u) == if lo <= u < lo + k then Reserved(Page) else At(t, u);
    }
  }

  /** The pages still to be reserved stay free while other sections are split and marked. */
  lemma RestStaysFree(t: Table, q: Table, lo: nat, k: nat, n: nat)
    requires AllFree(t, lo, n) && ReservedPages(t, q, lo, k) && k <= n
    ensures AllFree(q, lo + k, n - k)
  {
    hide At;
  }

  /** How many of the k sections from i on are free, and so need a second-level table of their own. */
  function FreeCount(l1: seq<Desc>, i: nat, k: nat): nat
    requires i + k <= |l1|
  {
    if k == 0 then 0 else FreeCount(l1, i, k - 1) + if l1[i + k - 1].DFree? then 1 else 0
  }

  /** The number of second-level tables that reserving pages lo .. lo + n creates. */
  function SplitsNeeded(t: Table, lo: nat, n: nat): nat
    requires lo + n <= PageCount(t)
  {
    if n == 0 then 0 else FreeCount(t.l1, lo / 0x100, (lo + n - 1) / 0x100 - lo / 0x100 + 1)
  }

  /** A run of allocations that fails keeps failing when it is made longer. */
  lemma {:induction false} RunStaysNone(a: FrameState, size: nat, k: nat, n: nat)
    requires k <= n && AllocRun(a, size, k).None?
    ensures AllocRun(a, size, n).None?
  {
    if k < n {
      RunStaysNone(a, size, k, n - 1);
    }
  }

  // ---------------------------------------------------------------- windows

  /** Descriptors s .. s + n are all free. */
  predicate FreeWindow(l1: seq<Desc>, s: nat, n: nat) {
    s + n <= |l1| && forall k :: s <= k < s + n ==> l1[k].DFree?
  }

  /** Entries s .. s + n of a second-level table are all free. */
  predicate FreePages(es: seq<Entry>, s: nat, n: nat) {
    s + n <= |es| && forall k :: s <= k < s + n ==> es[k].EFree?
  }

  /** Entries j .. j + n reserved. */
  function FillEntries(es: seq<Entry>, j: nat, n: nat): (r: seq<Entry>)
    requires j + n <= |es|
    ensures |r| == |es| && forall k :: 0 <= k < |es| ==> r[k] == if j <= k < j + n then EReserved else es[k]
  {
    es[..j] + seq(n, _ => EReserved) + es[j + n..]
  }

  /** The table with pages j .. j + n of the second-level table of section i reserved. */
  function MarkPages(t: Table, i: nat, j: nat, n: nat): Table
    requires i < |t.l1| && t.l1[i].DSecond? && j + n <= |t.l1[i].entries|
  {
    SetDesc(t, i, t.l1[i].(entries := FillEntries(t.l1[i].entries, j, n)))
  }

  /** The table with sections s .. s + n reserved. */
  function MarkSections(t: Table, s: nat, n: nat): Table
    requires s + n <= |t.l1|
  {
    t.(l1 := FillDescs(t.l1, s, n, DReserved))
  }

  lemma MarkNothing(t: Table, i: nat, j: nat)
    requires i <= |t.l1|
    ensures MarkSections(t, i, 0) == t
    ensures i < |t.l1| && t.l1[i].DSecond? && j <= |t.l1[i].entries| ==> MarkPages(t, i, j, 0) == t
  {
    assert FillDescs(t.l1, i, 0, DReserved) == t.l1;
    if i < |t.l1| && t.l1[i].DSecond? && j <= |t.l1[i].entries| {
      assert FillEntries(t.l1[i].entries, j, 0) == t.l1[i].entries;
      assert SetDesc(t, i, t.l1[i]) == t;
    }
  }

  lemma MarkPagesStep(t: Table, i: nat, j: nat, k: nat)
    requires i < |t.l1| && t.l1[i].DSecond? && j + k < |t.l1[i].entries|
    ensures var q := MarkPages(t, i, j, k);
            && |q.l1| == |t.l1| && q.l1[i].DSecond? && q.l1[i].frame == t.l1[i].frame
            && |q.l1[i].entries| == |t.l1[i].entries| && q.l1[i].entries[j + k] == t.l1[i].entries[j + k]
    ensures SetEntry(MarkPages(t, i, j, k), i, j + k, EReserved) == MarkPages(t, i, j, k + 1)
  {
    assert FillEntries(t.l1[i].entries, j, k)[j + k := EReserved] == FillEntries(t.l1[i].entries, j, k + 1);
  }

  lemma MarkSectionsStep(t: Table, s: nat, k: nat)
    requires s + k < |t.l1|
    ensures var q := MarkSections(t, s, k); |q.l1| == |t.l1| && q.l1[s + k] == t.l1[s + k]
    ensures SetDesc(MarkSections(t, s, k), s + k, DReserved) == MarkSections(t, s, k + 1)
  {
    assert FillDescs(t.l1, s, k, DReserved)[s + k := DReserved] == FillDescs(t.l1, s, k + 1, DReserved);
  }

  /** Marking pages of one second-level table is a page reservation of them. */
  lemma MarkPagesReserves(t: Table, i: nat, j: nat, n: nat)
    requires i < |t.l1| && t.l1[i].DSecond? && 0 < n && j + n <= |t.l1[i].entries| == 0x100
    ensures ReservedPages(t, MarkPages(t, i, j, n), 0x100 * i + j, n)
  {
    var r, lo := MarkPages(t, i, j, n), 0x100 * i + j;
    forall u | 0 <= u < PageCount(t) ensures At(r, u) == if lo <= u < lo + n then Reserved(Page) else At(t, u) {
      var k := u / 0x100;
      assert k == i ==> u % 0x100 == u - 0x100 * i;
    }
    forall k | 0 <= k < |t.l1| ensures SectionAfter(t.l1[k], r.l1[k], Meets(k, lo, n)) {
    }
  }

  /** Splitting a free section first changes nothing but that section's descriptor. */
  lemma SplitThenReserve(t: Table, q: Table, r: Table, i: nat, lo: nat, n: nat)
    requires i < |t.l1| == |q.l1| && t.l1[i].DFree? && q == SetDesc(t, i, q.l1[i]) && q.l1[i].DSecond?
    requires forall e :: e in q.l1[i].entries ==> e.EFree?
    requires ReservedPages(q, r, lo, n) && Meets(i, lo, n)
    ensures ReservedPages(t, r, lo, n)
  {
    forall u | 0 <= u < PageCount(t) ensures At(q, u) == At(t, u) {
    }
    forall k | 0 <= k < |t.l1| ensures SectionAfter(t.l1[k], r.l1[k], Meets(k, lo, n)) {
      assert SectionAfter(q.l1[k], r.l1[k], Meets(k, lo, n));
    }
  }

  /** The flat effect of marking sections. */
  lemma MarkSectionsAt(t: Table, s: nat, n: nat, u: nat)
    requires s + n <= |t.l1| && u < PageCount(t)
    ensures At(MarkSections(t, s, n), u) == if 0x100 * s <= u < 0x100 * (s + n) then Reserved(Section) else At(t, u)
  {
    assert s <= u / 0x100 < s + n <==> 0x100 * s <= u < 0x100 * (s + n);
  }

  // ---------------------------------------------------------------- one section at a time

  /** Pages v .. v + n lie in one section. */
  predicate InSection(v: nat, n: nat) {
    0 < n && v % 0x100 + n <= 0x100
  }

  lemma PageOfSection(v: nat, n: nat, k: nat)
    requires InSection(v, n) && k < n
    ensures (v + k) / 0x100 == v / 0x100 && (v + k) % 0x100 == v % 0x100 + k
  {
    DivMod(0x100, v / 0x100, v % 0x100 + k);
  }

  /** Entries j .. j + n of a section with descriptor d can be reserved. */
  predicate SectionReady(d: Desc, j: nat, n: nat) {
    0 < n && j + n <= 0x100 && (d.DFree? || (d.DSecond? && FreePages(d.entries, j, n)))
  }

  /** When the pages of one section are all free. */
  lemma SectionPagesFree(t: Table, v: nat, n: nat)
    requires WfDescs(t) && InSection(v, n)
    ensures AllFree(t, v, n) <==>
            v / 0x100 < |t.l1| && var d := t.l1[v / 0x100];
            d.DFree? || (d.DSecond? && FreePages(d.entries, v % 0x100, n))
  {
    if v / 0x100 < |t.l1| {
      var d := t.l1[v / 0x100];
      forall u | v <= u < v + n ensures u < PageCount(t) && At(t, u) == DescAt(d, v / 0x100, v % 0x100 + (u - v)) {
        PageOfSection(v, n, u - v);
      }
      if AllFree(t, v, n) {
        assert At(t, v) == Free;
        if d.DSecond? {
          forall k | v % 0x100 <= k < v % 0x100 + n ensures d.entries[k].EFree? {
            assert At(t, v + (k - v % 0x100)) == Free;
          }
        }
      }
    }
  }

  // ---------------------------------------------------------------- the allocations of a placed reservation

  /** The allocator after splitting the free ones of k sections from i on. */
  ghost function AfterSplits(a: FrameState, l1: seq<Desc>, i: nat, k: nat): Option<Grants>
    requires i + k <= |l1|
  {
    AllocRun(a, 1, FreeCount(l1, i, k))
  }

  lemma {:induction false} FreeCountMonotone(l1: seq<Desc>, i: nat, k: nat, n: nat)
    requires k <= n && i + n <= |l1|
    ensures FreeCount(l1, i, k) <= FreeCount(l1, i, n)
  {
    if k < n {
      FreeCountMonotone(l1, i, k, n - 1);
    }
  }

  /** The allocator after making sure that the section with descriptor d has a second-level table. */
  ghost function SplitSpec(a: FrameState, d: Desc): Option<FrameState> {
    if !d.DFree? then Some(a)
    else match AllocSpec(a, 1)
         case None => None
         case Some(g) => Some(g.after)
  }

  lemma {:induction false} RunLength(a: FrameState, size: nat, k: nat)
    requires AllocRun(a, size, k).Some?
    ensures |AllocRun(a, size, k).value.frames| == k
  {
    if k != 0 {
      RunLength(a, size, k - 1);
    }
  }

  /** A section that was free, with descriptor d, has been given the frame that the allocator grants. */
  ghost predicate TableGranted(a: FrameState, d: Desc, b: FrameState, e: Desc) {
    d.DFree? ==> e.DSecond? && AllocSpec(a, 1) == Some(Grant(b, e.frame))
  }

  /** Section i, free in t, has in u a second-level table in the frame whose number among the grants is that of the free
      sections before it. */
  ghost predicate HasTable(t: Table, u: Table, v: nat, i: nat, frames: seq<nat>) {
    && v / 0x100 <= i < |t.l1| && i < |u.l1| && u.l1[i].DSecond?
    && var x := FreeCount(t.l1, v / 0x100, i - v / 0x100); x < |frames| && u.l1[i].frame == frames[x]
  }

  /** The sections of pages v .. v + k get their second-level tables in order. */
  ghost predicate TablesInOrder(t: Table, u: Table, v: nat, k: nat, frames: seq<nat>) {
    forall i: nat :: i < |t.l1| && Meets(i, v, k) && t.l1[i].DFree? ==> HasTable(t, u, v, i, frames)
  }

  lemma AfterSplitsStep(a: FrameState, l1: seq<Desc>, i: nat, k: nat)
    requires i + k < |l1| && AfterSplits(a, l1, i, k).Some?
    ensures var x := SplitSpec(AfterSplits(a, l1, i, k).value.after, l1[i + k]);
            if x.None? then AfterSplits(a, l1, i, k + 1).None?
            else AfterSplits(a, l1, i, k + 1).Some? && AfterSplits(a, l1, i, k + 1).value.after == x.value
  {
  }

  lemma AllFreeSplit(t: Table, lo: nat, k: nat, n: nat)
    requires k <= n
    ensures AllFree(t, lo, n) <==> AllFree(t, lo, k) && AllFree(t, lo + k, n - k)
  {
    hide At;
  }

  /** Where the section of a page-aligned address ends. */
  lemma RestOfSection(v: nat, k: nat)
    ensures var address := PAGE_SIZE * v;
            && (Base20(address) + SECTION_SIZE - address) / PAGE_SIZE == 0x100 - v % 0x100
            && Base20(address) + SECTION_SIZE == PAGE_SIZE * (v + (0x100 - v % 0x100))
    ensures (v + (0x100 - v % 0x100)) % 0x100 == 0 && (v + (0x100 - v % 0x100)) / 0x100 == v / 0x100 + 1
    ensures 0 < k <= 0x100 - v % 0x100 ==> (v + k - 1) / 0x100 == v / 0x100
  {
    var q, x := v / 0x100, v % 0x100;
    assert PAGE_SIZE * v == SECTION_SIZE * q + PAGE_SIZE * x;
    DivMod(SECTION_SIZE, q, PAGE_SIZE * x);
    DivMod(0x100, q + 1, 0);
    if 0 < k <= 0x100 - x {
      DivMod(0x100, q, x + k - 1);
    }
  }

  /** Part-way through a placed reservation: the first k of n pages are reserved and the sections they lie in split. */
  ghost predicate PartReserved(a0: FrameState, t0: Table, a: FrameState, t: Table, v: nat, k: nat, n: nat) {
    && k <= n && v + n <= PageCount(t0)
    && ReservedPages(t0, t, v, k) && AllFree(t0, v, n)
    && (0 < k < n ==> (v + k) % 0x100 == 0)
    && AllocRun(a0, 1, SplitsNeeded(t0, v, k)).Some? && AllocRun(a0, 1, SplitsNeeded(t0, v, k)).value.after == a
    && TablesInOrder(t0, t, v, k, AllocRun(a0, 1, SplitsNeeded(t0, v, k)).value.frames)
  }

  lemma PartReservedNothing(a: FrameState, t: Table, v: nat, n: nat)
    requires AllFree(t, v, n) && v + n <= PageCount(t)
    ensures PartReserved(a, t, a, t, v, 0, n)
  {
    ReservedNothing(t, v);
  }

  /** The section to be dealt with next is as it was at the start. */
  lemma PartReservedNext(a0: FrameState, t0: Table, a: FrameState, t: Table, v: nat, k: nat, n: nat, w: nat)
    requires PartReserved(a0, t0, a, t, v, k, n) && k < n && 0 < w <= n - k && InSection(v + k, w)
    requires WfDescs(t)
    ensures (v + k) / 0x100 < |t0.l1| == |t.l1| && t.l1[(v + k) / 0x100] == t0.l1[(v + k) / 0x100]
    ensures SectionReady(t.l1[(v + k) / 0x100], (v + k) % 0x100, w)
  {
    hide AllocRun, SplitsNeeded;
    SectionPagesFree(t, v + k, w);
    RestStaysFree(t0, t, v, k, n);
    AllFreeSplit(t, v + k, w, n - k);
    var i := (v + k) / 0x100;
    assert !Meets(i, v, k);
    assert SectionAfter(t0.l1[i], t.l1[i], false);
  }

  /** One more section split and marked. */
  lemma PartReservedStep(a0: FrameState, t0: Table, a: FrameState, t: Table, v: nat, k: nat, n: nat, w: nat, b: FrameState, r: Table)
    requires PartReserved(a0, t0, a, t, v, k, n) && k < n && 0 < w <= n - k && InSection(v + k, w)
    requires w < n - k ==> (v + k + w) % 0x100 == 0
    requires ReservedPages(t, r, v + k, w)
    requires (v + k) / 0x100 < |t0.l1| && SplitSpec(a, t0.l1[(v + k) / 0x100]) == Some(b)
    requires (v + k) / 0x100 < |r.l1| && TableGranted(a, t0.l1[(v + k) / 0x100], b, r.l1[(v + k) / 0x100])
    ensures PartReserved(a0, t0, b, r, v, k + w, n)
  {
    hide ReservedPages, AllFree, SplitSpec, AllocRun, SplitsNeeded, TablesInOrder, TableGranted;
    ReservedThen(t0, t, r, v, k, w);
    SplitsNeededStep(a0, t0, v, k, w);
    TablesNext(a0, t0, a, t, v, k, n, w, b, r);
  }

  /** The table of one more section is the next in order. */
  lemma TablesNext(a0: FrameState, t0: Table, a: FrameState, t: Table, v: nat, k: nat, n: nat, w: nat, b: FrameState, r: Table)
    requires PartReserved(a0, t0, a, t, v, k, n) && k < n && 0 < w <= n - k && InSection(v + k, w)
    requires ReservedPages(t, r, v + k, w)
    requires (v + k) / 0x100 < |t0.l1| && SplitSpec(a, t0.l1[(v + k) / 0x100]) == Some(b)
    requires (v + k) / 0x100 < |r.l1| && TableGranted(a, t0.l1[(v + k) / 0x100], b, r.l1[(v + k) / 0x100])
    requires AllocRun(a0, 1, SplitsNeeded(t0, v, k + w)).Some?
    ensures TablesInOrder(t0, r, v, k + w, AllocRun(a0, 1, SplitsNeeded(t0, v, k + w)).value.frames)
  {
    hide AllFree, AllocSpec, At, HasTable;
    var i, lo := (v + k) / 0x100, v / 0x100;
    var xs, ys := AllocRun(a0, 1, SplitsNeeded(t0, v, k)).value.frames, AllocRun(a0, 1, SplitsNeeded(t0, v, k + w)).value.frames;
    SplitsUpTo(t0, v, k, w);
    RunLength(a0, 1, SplitsNeeded(t0, v, k));
    assert ys == if t0.l1[i].DFree? then xs + [AllocSpec(a, 1).value.frame] else xs;
    forall x: nat | x < |t0.l1| && Meets(x, v, k + w) && t0.l1[x].DFree? ensures HasTable(t0, r, v, x, ys) {
      if Meets(x, v, k) {
        assert HasTable(t0, t, v, x, xs);
        TableStays(t0, t, r, v, k, w, x, xs, ys);
      } else {
        NextSection(v, k, w, x);
        TableIsNext(t0, r, v, x, ys);
      }
    }
  }

  /** The number of splits before the section that holds page v + k, and up to it. */
  lemma SplitsUpTo(t: Table, v: nat, k: nat, w: nat)
    requires v + k + w <= PageCount(t) && 0 < w && InSection(v + k, w) && (k > 0 ==> (v + k) % 0x100 == 0)
    ensures var i, lo := (v + k) / 0x100, v / 0x100;
            && lo <= i < |t.l1| && SplitsNeeded(t, v, k) == FreeCount(t.l1, lo, i - lo)
            && SplitsNeeded(t, v, k + w) == FreeCount(t.l1, lo, i - lo) + if t.l1[i].DFree? then 1 else 0
  {
    hide FreeCount;
    var i, lo := (v + k) / 0x100, v / 0x100;
    assert (v + k + w - 1) / 0x100 == i;
    assert k > 0 ==> (v + k - 1) / 0x100 == i - 1;
    FreeCountNext(t.l1, lo, i - lo);
  }

  lemma FreeCountNext(l1: seq<Desc>, i: nat, k: nat)
    requires i + k < |l1|
    ensures FreeCount(l1, i, k + 1) == FreeCount(l1, i, k) + if l1[i + k].DFree? then 1 else 0
    ensures FreeCount(l1, i, 0) == 0
  {
  }

  lemma NextSection(v: nat, k: nat, w: nat, x: nat)
    requires 0 < w && InSection(v + k, w) && Meets(x, v, k + w) && !Meets(x, v, k) && (k > 0 ==> (v + k) % 0x100 == 0)
    ensures x == (v + k) / 0x100
  {
  }

  lemma TableStays(t0: Table, t: Table, r: Table, v: nat, k: nat, w: nat, x: nat, xs: seq<nat>, ys: seq<nat>)
    requires HasTable(t0, t, v, x, xs) && ReservedPages(t, r, v + k, w) && xs <= ys
    ensures HasTable(t0, r, v, x, ys)
  {
    hide At;
    assert SectionAfter(t.l1[x], r.l1[x], Meets(x, v + k, w));
  }

  lemma TableIsNext(t0: Table, r: Table, v: nat, x: nat, ys: seq<nat>)
    requires v / 0x100 <= x < |t0.l1| && x < |r.l1| && r.l1[x].DSecond?
    requires FreeCount(t0.l1, v / 0x100, x - v / 0x100) + 1 == |ys| && r.l1[x].frame == ys[|ys| - 1]
    ensures HasTable(t0, r, v, x, ys)
  {
  }

  lemma PartReservedFails(a0: FrameState, t0: Table, a: FrameState, t: Table, v: nat, k: nat, n: nat, w: nat)
    requires PartReserved(a0, t0, a, t, v, k, n) && k < n && 0 < w <= n - k && InSection(v + k, w)
    requires (v + k) / 0x100 < |t0.l1| && SplitSpec(a, t0.l1[(v + k) / 0x100]).None?
    ensures AllocRun(a0, 1, SplitsNeeded(t0, v, n)).None?
  {
    hide ReservedPages, AllFree, SplitSpec, AllocRun;
    SplitsNeededStep(a0, t0, v, k, w);
    FreeCountMonotone(t0.l1, v / 0x100, (v + k + w - 1) / 0x100 - v / 0x100 + 1, (v + n - 1) / 0x100 - v / 0x100 + 1);
    RunStaysNone(a0, 1, SplitsNeeded(t0, v, k + w), SplitsNeeded(t0, v, n));
  }

  /** The allocations for k + w pages are those for k pages and then the one for the next section. */
  lemma SplitsNeededStep(a: FrameState, t: Table, v: nat, k: nat, w: nat)
    requires v + k + w <= PageCount(t) && InSection(v + k, w) && (0 < k ==> (v + k) % 0x100 == 0)
    requires AllocRun(a, 1, SplitsNeeded(t, v, k)).Some?
    ensures (v + k) / 0x100 < |t.l1|
    ensures var x := SplitSpec(AllocRun(a, 1, SplitsNeeded(t, v, k)).value.after, t.l1[(v + k) / 0x100]);
            var y := AllocRun(a, 1, SplitsNeeded(t, v, k + w));
            if x.None? then y.None? else y.Some? && y.value.after == x.value
  {
    hide AllocRun, SplitSpec, FreeCount;
    PageOfSection(v + k, w, w - 1);
    var i := v / 0x100;
    var c := (v + k) / 0x100 - i;
    if k > 0 {
      DivMod(0x100, (v + k) / 0x100 - 1, 0xff);
    } else {
      NoSections(t.l1, i);
    }
    AfterSplitsStep(a, t.l1, i, c);
  }

  lemma NoSections(l1: seq<Desc>, i: nat)
    requires i <= |l1|
    ensures FreeCount(l1, i, 0) == 0
  {
  }

  lemma AllFreeBound(t: Table, v: nat, n: nat)
    requires AllFree(t, v, n) && n > 0
    ensures v + n <= PageCount(t)
  {
  }

  /** The outcome r of reserving n free pages from v on: a panic exactly when the second-level tables it needs cannot
      be allocated, else the pages reserved and exactly those allocations made, for one section after the other. */
  ghost predicate PlacedPages(a: FrameState, t: Table, r: Outcome<Result<nat>>, b: FrameState, u: Table, v: nat, n: nat) {
    if n == 0 then r == Done(Success(PAGE_SIZE * v)) && b == a && u == t
    else if PageCount(t) < v + n then false
    else
      match AllocRun(a, 1, SplitsNeeded(t, v, n))
      case None => r == Panicked(OutOfMemory)
      case Some(g) =>
        && r == Done(Success(PAGE_SIZE * v)) && b == g.after && ReservedPages(t, u, v, n)
        && TablesInOrder(t, u, v, n, g.frames)
  }

  lemma PartReservedMeans(a0: FrameState, t0: Table, a: FrameState, t: Table, v: nat, n: nat)
    requires PartReserved(a0, t0, a, t, v, n, n)
    ensures v + n <= PageCount(t0)
    ensures var g := AllocRun(a0, 1, SplitsNeeded(t0, v, n)); g.Some? && g.value.after == a && ReservedPages(t0, t, v, n)
                                                                 && TablesInOrder(t0, t, v, n, g.value.frames)
  {
  }

  // ---------------------------------------------------------------- sections

  lemma WindowFits(l1: seq<Desc>, s: nat, n: nat)
    requires FreeWindow(l1, s, n)
    ensures s + n <= |l1|
  {
  }

  /** The outcome of reserving sections i .. i + n: all of them exactly when all are in the table and free. */
  ghost predicate PlacedSections(t: Table, r: Result<nat>, u: Table, i: nat, n: nat, base: nat) {
    if n == 0 then r == Success(base) && u == t
    else if FreeWindow(t.l1, i, n) then r == Success(base) && u == MarkSections(t, i, n)
    else r == Failure && u == t
  }

  /** The outcome of reserving n sections anywhere: the lowest window of free ones, and a failure exactly when there
      is none. */
  ghost predicate FirstFitSections(t: Table, r: Result<nat>, u: Table, n: nat) {
    match r
    case Failure => u == t && forall s: nat :: !FreeWindow(t.l1, s, n)
    case Success(address) =>
      exists s: nat :: FreeWindow(t.l1, s, n) && (forall k: nat :: k < s ==> !FreeWindow(t.l1, k, n))
                       && s + n <= |t.l1| && address == s * SECTION_SIZE && u == MarkSections(t, s, n)
  }

  /** The outcome of reserving n supersections anywhere: the lowest aligned window of free sections. */
  ghost predicate FirstFitSupersections(t: Table, r: Result<nat>, u: Table, n: nat) {
    match r
    case Failure => u == t && forall q: nat :: !FreeGroups(t.l1, q, n)
    case Success(address) =>
      exists q: nat :: FreeGroups(t.l1, q, n) && (forall k: nat :: k < q ==> !FreeGroups(t.l1, k, n))
                       && 16 * q + 16 * n <= |t.l1| && address == q * SUPERSECTION_SIZE && u == MarkSections(t, 16 * q, 16 * n)
  }

  /** Groups q .. q + n of sixteen sections are all free. */
  predicate FreeGroups(l1: seq<Desc>, q: nat, n: nat) {
    FreeWindow(l1, 16 * q, 16 * n)
  }

  /** A run of pages free in one second-level table. */
  predicate PageWindow(t: Table, i: nat, s: nat, n: nat) {
    i < |t.l1| && t.l1[i].DSecond? && FreePages(t.l1[i].entries, s, n)
  }

  ghost predicate NoPageWindow(t: Table, i: nat, n: nat) {
    forall s: nat :: !PageWindow(t, i, s, n)
  }

  /** The lowest window of n free pages in the first second-level table that has one starts at page s of section i. */
  ghost predicate FirstWindow(t: Table, i: nat, s: nat, n: nat) {
    && PageWindow(t, i, s, n)
    && (forall k: nat :: k < s ==> !PageWindow(t, i, k, n))
    && (forall k: nat :: k < i ==> NoPageWindow(t, k, n))
  }

  /** The outcome of reserving n pages anywhere: the lowest window in the first second-level table that has one; else
      the start of the first free section, which is split; else a failure. */
  ghost predicate FirstFitPages(a: FrameState, t: Table, r: Outcome<Result<nat>>, b: FrameState, u: Table, n: nat) {
    if forall k: nat :: NoPageWindow(t, k, n) then NewTableFit(a, t, r, b, u, n)
    else exists i: nat, s: nat :: FirstWindow(t, i, s, n)
                                  && r == Done(Success(i * SECTION_SIZE + s * PAGE_SIZE)) && b == a && u == MarkPages(t, i, s, n)
  }

  ghost predicate NewTableFit(a: FrameState, t: Table, r: Outcome<Result<nat>>, b: FrameState, u: Table, n: nat) {
    if forall k: nat :: !FreeWindow(t.l1, k, 1) then r == Done(Failure) && b == a && u == t
    else exists i: nat :: FreeWindow(t.l1, i, 1) && (forall k: nat :: k < i ==> !FreeWindow(t.l1, k, 1))
                          && NewTableAt(a, t, r, b, u, n, i)
  }

  ghost predicate NewTableAt(a: FrameState, t: Table, r: Outcome<Result<nat>>, b: FrameState, u: Table, n: nat, i: nat)
    requires FreeWindow(t.l1, i, 1)
  {
    match SplitSpec(a, t.l1[i])
    case None => r == Panicked(OutOfMemory)
    case Some(c) =>
      && r == Done(Success(i * SECTION_SIZE)) && b == c && ReservedPages(t, u, 0x100 * i, n)
      && i < |u.l1| && TableGranted(a, t.l1[i], b, u.l1[i])
  }

  // ---------------------------------------------------------------- the two public reservations

  /** What reserve(units, granularity) does. */
  ghost predicate ReserveOutcome(s: Snapshot, r: Outcome<Result<nat>>, q: Snapshot, g: Granularity, n: nat) {
    (r == Done(Failure) ==> q == s) &&
    match g
    case Page => FirstFitPages(s.a, s.t, r, q.a, q.t, n)
    case Section => r.Done? && q.a == s.a && FirstFitSections(s.t, r.value, q.t, n)
    case Supersection => r.Done? && q.a == s.a && FirstFitSupersections(s.t, r.value, q.t, n)
  }

  /** The n units of size g from the one that contains page v on can be reserved. */
  ghost predicate Placeable(t: Table, g: Granularity, v: nat, n: nat) {
    n == 0
    || match g
       case Page => AllFree(t, v, n)
       case Section => FreeWindow(t.l1, v / 0x100, n)
       case Supersection => FreeWindow(t.l1, 16 * (v / 0x1000), 16 * n)
  }

  /** A placed reservation fails exactly when the units cannot all be reserved, and then nothing has changed. */
  lemma PlacedIffPlaceable(s: Snapshot, r: Outcome<Result<nat>>, q: Snapshot, g: Granularity, v: nat, n: nat)
    requires ReserveAtOutcome(s, r, q, g, v, n)
    ensures r == Done(Failure) <==> !Placeable(s.t, g, v, n)
    ensures r == Done(Failure) ==> q == s
    ensures n == 0 ==> r.Done? && q.t == s.t
  {
    hide At, ReservedPages, AllocRun, FreeWindow, MarkSections;
    NoneFree(s.t, v);
  }

  lemma NoneFree(t: Table, v: nat)
    ensures AllFree(t, v, 0)
  {
  }

  /** What reserve(address, units, granularity) does, for the address of page v. */
  ghost predicate ReserveAtOutcome(s: Snapshot, r: Outcome<Result<nat>>, q: Snapshot, g: Granularity, v: nat, n: nat) {
    (r == Done(Failure) ==> q == s) &&
    match g
    case Page => if AllFree(s.t, v, n) then PlacedPages(s.a, s.t, r, q.a, q.t, v, n) else r == Done(Failure)
    case Section =>
      r.Done? && q.a == s.a && PlacedSections(s.t, r.value, q.t, v / 0x100, n, SECTION_SIZE * (v / 0x100))
    case Supersection =>
      var i := 16 * (v / 0x1000);
      r.Done? && q.a == s.a && PlacedSections(s.t, r.value, q.t, i, 16 * n, SECTION_SIZE * i)
  }

  // ---------------------------------------------------------------- searching for a run

  predicate Run(bs: seq<bool>, s: nat, n: nat) {
    s + n <= |bs| && forall k :: s <= k < s + n ==> bs[k]
  }

  /** Among the first i flags there is no run of n set ones, and exactly the last c of them are set. */
  ghost predicate Tail(bs: seq<bool>, i: nat, c: nat, n: nat) {
    && c < n && c <= i <= |bs|
    && (forall k :: i - c <= k < i ==> bs[k])
    && (c < i ==> !bs[i - c - 1])
    && forall s: nat :: s + n <= i ==> !Run(bs, s, n)
  }

  lemma TailStart(bs: seq<bool>, n: nat)
    requires n > 0
    ensures Tail(bs, 0, 0, n)
  {
  }

  /** One step of the search: the counter of consecutive set flags reaches n exactly at the end of the first run. */
  lemma TailStep(bs: seq<bool>, i: nat, c: nat, n: nat)
    requires Tail(bs, i, c, n) && i < |bs|
    ensures c < n && (!bs[i] ==> Tail(bs, i + 1, 0, n))
    ensures bs[i] && c + 1 < n ==> Tail(bs, i + 1, c + 1, n)
    ensures bs[i] && c + 1 == n ==> i + 1 >= n && Run(bs, i + 1 - n, n) && forall s: nat :: s < i + 1 - n ==> !Run(bs, s, n)
  {
    forall s: nat | s + n == i + 1 && (!bs[i] || c + 1 < n) ensures !Run(bs, s, n) {
      var k := if bs[i] then i - c - 1 else i;
      assert !bs[k] && s <= k < s + n;
    }
  }

  lemma TailEnd(bs: seq<bool>, c: nat, n: nat)
    requires Tail(bs, |bs|, c, n)
    ensures forall s: nat :: !Run(bs, s, n)
  {
  }

  ghost function SectionFlags(l1: seq<Desc>): seq<bool> {
    seq(|l1|, k requires 0 <= k < |l1| => l1[k].DFree?)
  }

  ghost function GroupFlags(l1: seq<Desc>): seq<bool> {
    seq(|l1| / 16, q requires 0 <= q => FreeWindow(l1, 16 * q, 16))
  }

  ghost function EntryFlags(es: seq<Entry>): seq<bool> {
    seq(|es|, k requires 0 <= k < |es| => es[k].EFree?)
  }

  lemma SectionRuns(l1: seq<Desc>, n: nat)
    ensures forall s: nat :: Run(SectionFlags(l1), s, n) <==> FreeWindow(l1, s, n)
  {
    forall s: nat ensures Run(SectionFlags(l1), s, n) <==> FreeWindow(l1, s, n) {
      if Run(SectionFlags(l1), s, n) {
        forall k | s <= k < s + n ensures l1[k].DFree? {
          assert SectionFlags(l1)[k];
        }
      }
    }
  }

  lemma EntryRuns(es: seq<Entry>, n: nat)
    ensures forall s: nat :: Run(EntryFlags(es), s, n) <==> FreePages(es, s, n)
  {
    forall s: nat ensures Run(EntryFlags(es), s, n) <==> FreePages(es, s, n) {
      if Run(EntryFlags(es), s, n) {
        forall k | s <= k < s + n ensures es[k].EFree? {
          assert EntryFlags(es)[k];
        }
      }
    }
  }

  lemma GroupRuns(l1: seq<Desc>, n: nat)
    requires |l1| % 16 == 0
    ensures forall q: nat :: Run(GroupFlags(l1), q, n) <==> FreeGroups(l1, q, n)
  {
    forall q: nat ensures Run(GroupFlags(l1), q, n) <==> FreeGroups(l1, q, n) {
      if Run(GroupFlags(l1), q, n) {
        forall k | 16 * q <= k < 16 * q + 16 * n ensures l1[k].DFree? {
          assert GroupFlags(l1)[k / 16];
          assert FreeWindow(l1, 16 * (k / 16), 16);
        }
      }
      if FreeGroups(l1, q, n) {
        forall k | q <= k < q + n ensures GroupFlags(l1)[k] {
          assert FreeWindow(l1, 16 * k, 16);
        }
      }
    }
  }
}
