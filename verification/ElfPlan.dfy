/** What loading an image needs, told from the state before: which segments fit, and how many frames the load takes. */
module ElfPlan {
  import opened Outcomes
  import opened Descriptors
  import opened AddressSpace
  import opened Frames
  import opened Memory
  import opened Evolution
  import opened Reservation
  import opened Leasing
  import opened Allocation
  import opened ElfImage

  /** Segment i can be loaded after the segments before it, in a table that starts as t: it is page-aligned, its pages are
      all in the table and free, and none of them belongs to an earlier segment. */
  ghost predicate SegmentFits(t: Table, gs: seq<Segment>, i: nat)
    requires i < |gs|
  {
    gs[i].pType == PT_LOAD ==>
      && gs[i].pVaddr % PAGE_SIZE == 0
      && forall u: nat :: InSegment(gs[i], u) ==> PageFits(t, gs, i, u)
  }

  ghost predicate PageFits(t: Table, gs: seq<Segment>, i: nat, u: nat) {
    u < PageCount(t) && At(t, u) == Free && !InSegments(gs, i, u)
  }

  ghost predicate AllFit(t: Table, gs: seq<Segment>, i: nat)
    requires i <= |gs|
  {
    forall j :: 0 <= j < i ==> SegmentFits(t, gs, j)
  }

  // ---------------------------------------------------------------- counting frames

  /** The first page of a segment, and the number of its pages. */
  function FirstPage(g: Segment): nat { g.pVaddr / PAGE_SIZE }
  function Pages(g: Segment): nat { if g.pType == PT_LOAD then PagesFor(g.pMemsz) else 0 }

  /** Section x holds a page of one of the first i segments. */
  ghost predicate Touched(gs: seq<Segment>, i: nat, x: nat) {
    exists j: nat :: j < i && j < |gs| && Meets(x, FirstPage(gs[j]), Pages(gs[j]))
  }

  /** Of the first m sections of t, how many are free and hold a page of one of the first i segments. */
  ghost function Splits(t: Table, gs: seq<Segment>, i: nat, m: nat): nat
    requires m <= |t.l1|
  {
    if m == 0 then 0 else Splits(t, gs, i, m - 1) + if t.l1[m - 1].DFree? && Touched(gs, i, m - 1) then 1 else 0
  }

  /** The pages of the first i segments. */
  function TotalPages(gs: seq<Segment>, i: nat): nat
    requires i <= |gs|
  {
    if i == 0 then 0 else TotalPages(gs, i - 1) + Pages(gs[i - 1])
  }

  /** The frames that loading the first i segments takes: one for each second-level table that it has to make, and one
      for each page. */
  ghost function FramesNeeded(t: Table, gs: seq<Segment>, i: nat): nat
    requires i <= |gs|
  {
    Splits(t, gs, i, |t.l1|) + TotalPages(gs, i)
  }

  /** How loading the first i segments panics: segment after segment that fits, out of memory when its second-level tables
      or its pages cannot be had, and for lack of counting as soon as its pages have been reserved. */
  ghost function LoadPanic(a: FrameState, t: Table, gs: seq<Segment>, i: nat): Option<PanicCode>
    requires i <= |gs|
  {
    if i == 0 then None
    else
      match LoadPanic(a, t, gs, i - 1)
      case Some(c) => Some(c)
      case None =>
        if !AllFit(t, gs, i) || gs[i - 1].pType != PT_LOAD then None
        else if AllocRun(a, 1, Splits(t, gs, i, |t.l1|) + TotalPages(gs, i - 1)).None? then Some(OutOfMemory)
        else if !t.counted then Some(AllocationInNonReferenceCountedTable)
        else if AllocRun(a, 1, FramesNeeded(t, gs, i)).None? then Some(OutOfMemory)
        else None
  }

  /** On a table that counts references, loading an image all of whose segments fit panics exactly when the allocator
      cannot grant as many frames in a row as the load takes. */
  lemma {:induction false} CountedLoadPanics(a: FrameState, t: Table, gs: seq<Segment>, i: nat)
    requires i <= |gs| && t.counted && AllFit(t, gs, i)
    ensures LoadPanic(a, t, gs, i) == if AllocRun(a, 1, FramesNeeded(t, gs, i)).None? then Some(OutOfMemory) else None
  {
    hide AllocRun, SegmentFits, Touched;
    if i == 0 {
      NothingTouched(t, gs, |t.l1|);
      NoRun(a);
    } else {
      CountedLoadPanics(a, t, gs, i - 1);
      SplitsGrow(t, gs, i - 1, |t.l1|);
      var k, m, n := FramesNeeded(t, gs, i - 1), Splits(t, gs, i, |t.l1|) + TotalPages(gs, i - 1), FramesNeeded(t, gs, i);
      if AllocRun(a, 1, k).None? {
        RunStaysNone(a, 1, k, n);
      } else if AllocRun(a, 1, m).None? {
        RunStaysNone(a, 1, m, n);
      }
      if gs[i - 1].pType != PT_LOAD {
        NothingMore(t, gs, i - 1, |t.l1|);
      }
    }
  }

  lemma NoRun(a: FrameState)
    ensures AllocRun(a, 1, 0) == Some(Grants(a, []))
  {
  }

  lemma TouchedNext(gs: seq<Segment>, i: nat, x: nat)
    requires i < |gs|
    ensures Touched(gs, i + 1, x) <==> Touched(gs, i, x) || Meets(x, FirstPage(gs[i]), Pages(gs[i]))
  {
    hide Meets, FirstPage, Pages;
    if Touched(gs, i + 1, x) {
      var j: nat :| j < i + 1 && Meets(x, FirstPage(gs[j]), Pages(gs[j]));
      assert j < i ==> Touched(gs, i, x);
    }
    if Touched(gs, i, x) {
      var j: nat :| j < i && Meets(x, FirstPage(gs[j]), Pages(gs[j]));
      assert j < i + 1;
    }
  }

  lemma {:induction false} NothingTouched(t: Table, gs: seq<Segment>, m: nat)
    requires m <= |t.l1|
    ensures Splits(t, gs, 0, m) == 0
  {
    if m != 0 {
      NothingTouched(t, gs, m - 1);
    }
  }

  lemma {:induction false} SplitsGrow(t: Table, gs: seq<Segment>, i: nat, m: nat)
    requires m <= |t.l1| && i < |gs|
    ensures Splits(t, gs, i, m) <= Splits(t, gs, i + 1, m)
  {
    hide Touched, Meets;
    if m != 0 {
      SplitsGrow(t, gs, i, m - 1);
      TouchedNext(gs, i, m - 1);
    }
  }

  lemma {:induction false} NothingMore(t: Table, gs: seq<Segment>, i: nat, m: nat)
    requires m <= |t.l1| && i < |gs| && Pages(gs[i]) == 0
    ensures Splits(t, gs, i + 1, m) == Splits(t, gs, i, m)
  {
    hide Touched;
    if m != 0 {
      NothingMore(t, gs, i, m - 1);
      TouchedNext(gs, i, m - 1);
    }
  }

  // ---------------------------------------------------------------- the load as it goes

  /** In q, the sections that were free in t and are not yet in use by one of the first i segments are free. */
  ghost predicate Untouched(t: Table, q: Table, gs: seq<Segment>, i: nat) {
    |q.l1| == |t.l1| && forall x: nat :: x < |t.l1| ==> (q.l1[x].DFree? <==> t.l1[x].DFree? && !Touched(gs, i, x))
  }

  /** Page k of segment j is backed by the grant, counted from the start of the load, that follows those of all pages
      before it and of all second-level tables made so far. */
  ghost predicate PageGranted(t: Table, q: Table, gs: seq<Segment>, j: nat, k: nat, frames: seq<nat>)
    requires j < |gs|
  {
    var x := Splits(t, gs, j + 1, |t.l1|) + TotalPages(gs, j) + k;
    x < |frames| && FirstPage(gs[j]) + k < PageCount(q) && At(q, FirstPage(gs[j]) + k) == Committed(frames[x])
  }

  ghost predicate InOrder(t: Table, q: Table, gs: seq<Segment>, i: nat, frames: seq<nat>) {
    i <= |gs| && forall j: nat, k: nat :: j < i && k < Pages(gs[j]) ==> PageGranted(t, q, gs, j, k, frames)
  }

  /** q is the state after the first i segments have been loaded in state s. */
  ghost predicate Progress(s: Snapshot, q: Snapshot, gs: seq<Segment>, i: nat) {
    && SegmentsLoaded(s, q.t, gs, i) && AllFit(s.t, gs, i) && Untouched(s.t, q.t, gs, i) && q.t.counted == s.t.counted
    && LoadPanic(s.a, s.t, gs, i).None?
    && AllocRun(s.a, 1, FramesNeeded(s.t, gs, i)).Some? && AllocRun(s.a, 1, FramesNeeded(s.t, gs, i)).value.after == q.a
    && InOrder(s.t, q.t, gs, i, AllocRun(s.a, 1, FramesNeeded(s.t, gs, i)).value.frames)
  }

  lemma ProgressStarts(s: Snapshot, gs: seq<Segment>)
    ensures Progress(s, s, gs, 0)
  {
    NoSegments(s, gs);
    NothingTouched(s.t, gs, |s.t.l1|);
    NoRun(s.a);
  }

  /** A segment that is not to be loaded changes nothing. */
  lemma ProgressSkips(s: Snapshot, q: Snapshot, gs: seq<Segment>, i: nat)
    requires Progress(s, q, gs, i) && i < |gs| && gs[i].pType != PT_LOAD
    ensures Progress(s, q, gs, i + 1)
  {
    hide SegmentsLoaded, AllocRun, Touched;
    SegmentSkipped(s, q.t, gs, i);
    NothingMore(s.t, gs, i, |s.t.l1|);
    assert SegmentFits(s.t, gs, i);
    forall x: nat ensures Touched(gs, i + 1, x) <==> Touched(gs, i, x) {
      TouchedNext(gs, i, x);
    }
  }

  /** The pages of the next segment can be reserved exactly if it fits. */
  lemma FitsIffPlaceable(s: Snapshot, t: Table, gs: seq<Segment>, i: nat)
    requires SegmentsLoaded(s, t, gs, i) && i < |gs| && gs[i].pType == PT_LOAD && gs[i].pVaddr % PAGE_SIZE == 0
    ensures SegmentFits(s.t, gs, i) <==> Placeable(t, Page, FirstPage(gs[i]), Pages(gs[i]))
  {
    hide At, InSegments, PagesFor;
    var v, n := FirstPage(gs[i]), Pages(gs[i]);
    forall u: nat | v <= u < v + n
      ensures PageFits(s.t, gs, i, u) <==> u < PageCount(t) && At(t, u) == Free
    {
      assert InSegments(gs, i, u) ==> FreshPage(s, t, u);
    }
    if SegmentFits(s.t, gs, i) && n > 0 {
      assert InSegment(gs[i], v + n - 1);
      forall u | v <= u < v + n ensures u < PageCount(t) && At(t, u) == Free {
        assert InSegment(gs[i], u);
      }
    }
  }

  /** A segment that does not fit ends the load. */
  lemma {:induction false} MisfitEnds(a: FrameState, t: Table, gs: seq<Segment>, i: nat, n: nat)
    requires i < n <= |gs| && LoadPanic(a, t, gs, i).None? && !SegmentFits(t, gs, i)
    ensures LoadPanic(a, t, gs, n).None? && !AllFit(t, gs, n)
  {
    hide SegmentFits, AllocRun;
    assert !AllFit(t, gs, n);
    if i < n - 1 {
      MisfitEnds(a, t, gs, i, n - 1);
    }
  }

  /** So does a panic. */
  lemma {:induction false} PanicEnds(a: FrameState, t: Table, gs: seq<Segment>, i: nat, n: nat)
    requires i <= n <= |gs| && LoadPanic(a, t, gs, i).Some?
    ensures LoadPanic(a, t, gs, n) == LoadPanic(a, t, gs, i)
  {
    if i < n {
      PanicEnds(a, t, gs, i, n - 1);
    }
  }

  // ---------------------------------------------------------------- one more segment

  /** Section x holds one of the pages v .. v + n exactly if it is between the sections of the first and the last. */
  lemma MeetsIs(x: nat, v: nat, n: nat)
    requires n > 0
    ensures Meets(x, v, n) <==> v / 0x100 <= x <= (v + n - 1) / 0x100
  {
  }

  /** The free sections among those from lo to m, up to lo + k. */
  function FreeBelow(l1: seq<Desc>, lo: nat, k: nat, m: nat): nat
    requires lo + k <= |l1|
  {
    FreeCount(l1, lo, if m <= lo then 0 else if m <= lo + k then m - lo else k)
  }

  /** The new second-level tables are those of the free sections of the segment that no earlier one has touched. */
  lemma {:induction false} SplitsNext(t: Table, q: Table, gs: seq<Segment>, i: nat, m: nat)
    requires i < |gs| && Untouched(t, q, gs, i) && m <= |t.l1| && Pages(gs[i]) > 0
    requires FirstPage(gs[i]) + Pages(gs[i]) <= PageCount(t)
    ensures var v, n := FirstPage(gs[i]), Pages(gs[i]);
            var lo := v / 0x100; var k := (v + n - 1) / 0x100 - lo + 1;
            lo + k <= |q.l1| && Splits(t, gs, i + 1, m) == Splits(t, gs, i, m) + FreeBelow(q.l1, lo, k, m)
  {
    hide Touched, Pages, FirstPage;
    if m != 0 {
      SplitsNext(t, q, gs, i, m - 1);
      TouchedNext(gs, i, m - 1);
      MeetsIs(m - 1, FirstPage(gs[i]), Pages(gs[i]));
    }
  }

  lemma SplitsAre(t: Table, q: Table, gs: seq<Segment>, i: nat)
    requires i < |gs| && Untouched(t, q, gs, i) && FirstPage(gs[i]) + Pages(gs[i]) <= PageCount(q)
    ensures Splits(t, gs, i + 1, |t.l1|) == Splits(t, gs, i, |t.l1|) + SplitsNeeded(q, FirstPage(gs[i]), Pages(gs[i]))
  {
    hide Touched, Pages, FirstPage;
    if Pages(gs[i]) > 0 {
      SplitsNext(t, q, gs, i, |t.l1|);
    } else {
      NothingMore(t, gs, i, |t.l1|);
    }
  }

  /** Two runs of allocations, one after the other, are one. */
  lemma {:induction false} RunThenRun(a: FrameState, size: nat, j: nat, k: nat)
    requires AllocRun(a, size, j).Some?
    ensures AllocRun(a, size, j + k).None? <==> AllocRun(AllocRun(a, size, j).value.after, size, k).None?
    ensures AllocRun(a, size, j + k).Some? ==>
              var x, y := AllocRun(a, size, j).value, AllocRun(AllocRun(a, size, j).value.after, size, k).value;
              AllocRun(a, size, j + k) == Some(Grants(y.after, x.frames + y.frames))
  {
    hide AllocSpec;
    if k == 0 {
      assert AllocRun(a, size, j).value.frames + [] == AllocRun(a, size, j).value.frames;
    } else {
      RunThenRun(a, size, j, k - 1);
      assert j + k - 1 == j + (k - 1);
      if AllocRun(a, size, j + k).Some? {
        var x, y := AllocRun(a, size, j).value.frames, AllocRun(AllocRun(a, size, j).value.after, size, k - 1).value;
        var f := AllocSpec(y.after, size).value.frame;
        assert (x + y.frames) + [f] == x + (y.frames + [f]);
      }
    }
  }

  ghost predicate Extends(xs: seq<nat>, ys: seq<nat>) {
    |xs| <= |ys| && forall x :: 0 <= x < |xs| ==> ys[x] == xs[x]
  }

  /** The grants of xs from number n on are those of ys. */
  ghost predicate GrantsAre(xs: seq<nat>, n: nat, ys: seq<nat>) {
    n + |ys| <= |xs| && forall k :: 0 <= k < |ys| ==> xs[n + k] == ys[k]
  }

  /** The frames of a run of j, then d, then n grants. */
  lemma GrantsInOrder(xs: seq<nat>, ds: seq<nat>, ys: seq<nat>)
    ensures Extends(xs, (xs + ds) + ys) && |(xs + ds) + ys| == |xs| + |ds| + |ys|
    ensures GrantsAre((xs + ds) + ys, |xs| + |ds|, ys)
  {
  }

  /** How the next segment, if it fits, panics: as a reservation and an allocation of its pages from where the load is. */
  lemma NextPanics(s: Snapshot, q: Snapshot, gs: seq<Segment>, i: nat)
    requires Progress(s, q, gs, i) && i < |gs| && gs[i].pType == PT_LOAD && SegmentFits(s.t, gs, i)
    requires Pages(gs[i]) > 0 ==> FirstPage(gs[i]) + Pages(gs[i]) <= PageCount(q.t)
    ensures var b := AfterReserveAt(q.a, q.t, Page, FirstPage(gs[i]), Pages(gs[i]));
            && LoadPanic(s.a, s.t, gs, i + 1) == BackingPanic(b, q.t.counted, Page, Pages(gs[i]))
            && (LoadPanic(s.a, s.t, gs, i + 1).None? ==>
                  && AllocRun(s.a, 1, FramesNeeded(s.t, gs, i + 1)).Some? && b.Some? && AllocRun(b.value, 1, Pages(gs[i])).Some?
                  && var x, y := AllocRun(s.a, 1, FramesNeeded(s.t, gs, i + 1)).value, AllocRun(b.value, 1, Pages(gs[i])).value;
                     && x.after == y.after && Extends(AllocRun(s.a, 1, FramesNeeded(s.t, gs, i)).value.frames, x.frames)
                     && GrantsAre(x.frames, Splits(s.t, gs, i + 1, |s.t.l1|) + TotalPages(gs, i), y.frames))
  {
    hide SegmentsLoaded, AllocRun, Touched, SegmentFits, Pages, FirstPage, AfterReserveAt;
    var v, n := FirstPage(gs[i]), Pages(gs[i]);
    assert AllFit(s.t, gs, i + 1);
    var j := FramesNeeded(s.t, gs, i);
    var d := SplitsHere(s, q, gs, i);
    RunThenRun(s.a, 1, j, d);
    assert FramesNeeded(s.t, gs, i + 1) == j + d + n;
    if AllocRun(s.a, 1, j + d).Some? {
      RunThenRun(s.a, 1, j + d, n);
      if AllocRun(s.a, 1, j + d + n).Some? {
        ThreeRuns(s.a, j, d, n);
      }
    }
  }

  lemma ThreeRuns(a: FrameState, j: nat, d: nat, n: nat)
    requires AllocRun(a, 1, j).Some? && AllocRun(a, 1, j + d).Some? && AllocRun(a, 1, j + d + n).Some?
    ensures var x, y, z := AllocRun(a, 1, j).value, AllocRun(a, 1, j + d + n).value, AllocRun(AllocRun(a, 1, j + d).value.after, 1, n);
            && z.Some? && y.after == z.value.after && Extends(x.frames, y.frames)
            && GrantsAre(y.frames, j + d, z.value.frames)
  {
    hide AllocRun;
    RunThenRun(a, 1, j, d);
    RunThenRun(a, 1, j + d, n);
    RunLength(a, 1, j);
    RunLength(a, 1, j + d);
    var z := AllocRun(AllocRun(a, 1, j + d).value.after, 1, n).value;
    RunLength(AllocRun(a, 1, j + d).value.after, 1, n);
    GrantsInOrder(AllocRun(a, 1, j).value.frames, AllocRun(AllocRun(a, 1, j).value.after, 1, d).value.frames, z.frames);
  }

  /** The number of second-level tables that the next segment makes, and the allocator once it has them. */
  lemma SplitsHere(s: Snapshot, q: Snapshot, gs: seq<Segment>, i: nat) returns (d: nat)
    requires Progress(s, q, gs, i) && i < |gs|
    requires Pages(gs[i]) > 0 ==> FirstPage(gs[i]) + Pages(gs[i]) <= PageCount(q.t)
    ensures Splits(s.t, gs, i + 1, |s.t.l1|) == Splits(s.t, gs, i, |s.t.l1|) + d
    ensures AfterReserveAt(q.a, q.t, Page, FirstPage(gs[i]), Pages(gs[i])) ==
            match AllocRun(q.a, 1, d) case None => None case Some(x) => Some(x.after)
  {
    hide SegmentsLoaded, Touched, Pages, FirstPage;
    if Pages(gs[i]) == 0 {
      d := 0;
      NothingMore(s.t, gs, i, |s.t.l1|);
    } else {
      d := SplitsNeeded(q.t, FirstPage(gs[i]), Pages(gs[i]));
      SplitsAre(s.t, q.t, gs, i);
    }
  }

  /** One more segment loaded. */
  lemma ProgressNext(s: Snapshot, q: Snapshot, z: Snapshot, gs: seq<Segment>, i: nat, ps: seq<nat>)
    requires Progress(s, q, gs, i) && SegmentBacked(s, q, z, gs, i, ps) && SegmentFits(s.t, gs, i)
    requires Taken(q.t, z.t, FirstPage(gs[i]), Pages(gs[i])) && z.t.counted == q.t.counted
    requires var b := AfterReserveAt(q.a, q.t, Page, FirstPage(gs[i]), Pages(gs[i]));
             b.Some? && AllocRun(b.value, 1, Pages(gs[i])) == Some(Grants(z.a, ps))
    ensures Progress(s, z, gs, i + 1)
  {
    hide SegmentsLoaded, AllocRun, Touched, SegmentFits, AfterReserveAt, LoadPanic, Backed, Coherent, Evolves, InOrder, PageGranted,
      GrantsAre, Extends, FramesNeeded, TotalPages;
    SegmentLoaded(s, q, z, gs, i, ps);
    NextPanics(s, q, gs, i);
    OrderNext(s, q, z, gs, i, ps, AllocRun(s.a, 1, FramesNeeded(s.t, gs, i)).value.frames,
              AllocRun(s.a, 1, FramesNeeded(s.t, gs, i + 1)).value.frames);
    hide Pages, FirstPage;
    forall x: nat ensures Touched(gs, i + 1, x) <==> Touched(gs, i, x) || Meets(x, FirstPage(gs[i]), Pages(gs[i])) {
      TouchedNext(gs, i, x);
    }
  }

  /** The pages of the next segment are backed by the next grants, and those before it as they were. */
  lemma OrderNext(s: Snapshot, q: Snapshot, z: Snapshot, gs: seq<Segment>, i: nat, ps: seq<nat>, xs: seq<nat>, ys: seq<nat>)
    requires SegmentBacked(s, q, z, gs, i, ps) && InOrder(s.t, q.t, gs, i, xs) && Extends(xs, ys)
    requires GrantsAre(ys, Splits(s.t, gs, i + 1, |s.t.l1|) + TotalPages(gs, i), ps)
    ensures InOrder(s.t, z.t, gs, i + 1, ys)
  {
    hide At, SegmentsLoaded, Coherent, Evolves, Splits, TotalPages, FreshPage, InSegments;
    forall j: nat, k: nat | j < i + 1 && k < Pages(gs[j]) ensures PageGranted(s.t, z.t, gs, j, k, ys) {
      var u := FirstPage(gs[j]) + k;
      assert InSegment(gs[j], u);
      PageAfter(s, q, z, gs, i, ps, u);
      if j < i {
        assert PageGranted(s.t, q.t, gs, j, k, xs);
        InThisSegment(gs, i, j, u);
      }
    }
  }

  // ---------------------------------------------------------------- what the frames of the segments hold

  /** Frame p backs a page of one of the first i segments. */
  ghost predicate SegmentFrame(t: Table, gs: seq<Segment>, i: nat, p: nat) {
    exists u: nat :: InSegments(gs, i, u) && u < PageCount(t) && At(t, u) == Committed(p)
  }

  /** From s to q memory changes in the table's pages, and in the frames of the first i segments, which are full of 0xcc,
      only. */
  ghost predicate SegmentsFilled(s: Snapshot, q: Snapshot, gs: seq<Segment>, i: nat) {
    && |q.m| == |s.m|
    && forall p: nat :: p < |q.m| && !TableFrame(q.t, p) ==> q.m[p] == if SegmentFrame(q.t, gs, i, p) then FilledRow() else s.m[p]
  }

  lemma FilledStarts(s: Snapshot, gs: seq<Segment>)
    ensures SegmentsFilled(s, s, gs, 0)
  {
    hide At, TableFrame;
  }

  lemma FilledSkips(s: Snapshot, q: Snapshot, gs: seq<Segment>, i: nat)
    requires SegmentsFilled(s, q, gs, i) && i < |gs| && gs[i].pType != PT_LOAD
    ensures SegmentsFilled(s, q, gs, i + 1)
  {
    hide At, TableFrame, InSegments, PagesFor;
    forall u: nat ensures InSegments(gs, i + 1, u) <==> InSegments(gs, i, u) {
      InSegmentsNext(gs, i, u);
    }
  }

  /** The frames of the first i + 1 segments are those of the first i and the new ones. */
  lemma SegmentFrameNext(s: Snapshot, q: Snapshot, z: Snapshot, gs: seq<Segment>, i: nat, ps: seq<nat>, p: nat)
    requires SegmentBacked(s, q, z, gs, i, ps)
    ensures SegmentFrame(z.t, gs, i + 1, p) <==> SegmentFrame(q.t, gs, i, p) || p in ps
  {
    hide At, PagesFor, InSegments, Coherent, Evolves, Backed, SegmentsLoaded, FreshPage;
    PageAfter(s, q, z, gs, i, ps, 0);
    if SegmentFrame(z.t, gs, i + 1, p) {
      var u: nat :| InSegments(gs, i + 1, u) && u < PageCount(z.t) && At(z.t, u) == Committed(p);
      PageAfter(s, q, z, gs, i, ps, u);
    }
    if SegmentFrame(q.t, gs, i, p) {
      var u: nat :| InSegments(gs, i, u) && u < PageCount(q.t) && At(q.t, u) == Committed(p);
      PageAfter(s, q, z, gs, i, ps, u);
    }
    if p in ps {
      var k: nat :| k < |ps| && ps[k] == p;
      var u := gs[i].pVaddr / PAGE_SIZE + k;
      assert InSegment(gs[i], u);
      PageAfter(s, q, z, gs, i, ps, u);
    }
  }

  /** The next segment's frames are full of 0xcc too. */
  lemma FilledNext(s: Snapshot, q: Snapshot, z: Snapshot, gs: seq<Segment>, i: nat, ps: seq<nat>)
    requires SegmentBacked(s, q, z, gs, i, ps) && SegmentsFilled(s, q, gs, i) && OnlyFilled(q, z, ps) && Evolves(q, z)
    ensures SegmentsFilled(s, z, gs, i + 1)
  {
    hide At, TableFrame, SegmentFrame, SegmentBacked, FilledRow;
    forall p: nat | p < |z.m| && !TableFrame(z.t, p)
      ensures z.m[p] == if SegmentFrame(z.t, gs, i + 1, p) then FilledRow() else s.m[p]
    {
      assert !TableFrame(q.t, p);
      SegmentFrameNext(s, q, z, gs, i, ps, p);
    }
  }

  /** q is the state of a load that has stopped at the first segment that does not fit, with those before it loaded. */
  ghost predicate StoppedShort(s: Snapshot, q: Snapshot, gs: seq<Segment>) {
    exists i: nat :: i < |gs| && !SegmentFits(s.t, gs, i) && Progress(s, q, gs, i) && SegmentsFilled(s, q, gs, i)
  }
}
