/** Address translation: what a table promises, what the hardware does with its words, and what mapping achieves. */
module Translation {
  import opened Bits
  import opened Outcomes
  import opened Descriptors
  import opened AddressSpace
  import opened Memory
  import opened TableMemory
  import opened Evolution
  import opened Frames
  import opened Allocation
  import opened Mapping

  /** The physical address of virtual address va according to the flat page map. */
  function Translate(t: Table, va: nat): Result<nat> {
    var v := va / PAGE_SIZE;
    if v < PageCount(t) && At(t, v).Committed? then Success(At(t, v).frame * PAGE_SIZE + va % PAGE_SIZE) else Failure
  }

  // ---------------------------------------------------------------- the hardware walk

  /** The word at physical address pa, if memory has one there. */
  function Fetch(m: seq<Row>, pa: nat): Option<word> {
    if pa / 0x1000 < |m| then Some(m[pa / 0x1000][pa % 0x1000 / 4]) else None
  }

  /** A translation-table walk in the short-descriptor format, section B3.5.1 of the ARM Architecture Reference Manual
      (DDI 0406C): the table base register, the first-level descriptor selected by VA[31:20] and, for a page table, the
      second-level descriptor selected by VA[19:12]. None is a translation fault. */
  function Walk(m: seq<Row>, ttbr: nat, va: nat): Option<nat> {
    match Fetch(m, ttbr - ttbr % 0x4000 + 4 * (va / 0x100000))
    case None => None
    case Some(d) =>
      if d % 4 == 1 then                                                      // page table: [31:10]
        match Fetch(m, d - d % 0x400 + 4 * (va / 0x1000 % 0x100))
        case None => None
        case Some(e) =>
          if e % 4 == 0 then None
          else if e % 4 == 1 then Some(e - e % 0x10000 + va % 0x10000)        // large page: [31:16]
          else Some(e - e % 0x1000 + va % 0x1000)                             // small page: [31:12]
      else if d % 4 == 2 then
        if d / 0x40000 % 2 == 0 then Some(d - d % 0x100000 + va % 0x100000)   // section: [31:20]
        else Some(d - d % 0x1000000 + va % 0x1000000                          // supersection: [31:24] and, above
                  + d / 0x100000 % 16 * 0x1_0000_0000                         // 4 GiB, [23:20]
                  + d / 0x20 % 16 * 0x10_0000_0000)                           // and [8:5]
      else None
  }

  /** The hardware's view of section i, given its descriptor. */
  function WalkDesc(d: Desc, va: nat): Option<nat>
    requires WfDesc(d)
  {
    match d
    case DFree => None
    case DReserved => None
    case DSecond(p, es) =>
      var e := es[va / 0x1000 % 0x100];
      if e.EPage? then Some(e.frame * PAGE_SIZE + va % 0x1000) else None
    case DSection(p) => Some(p * PAGE_SIZE + va % 0x100000)
    case DSuper(p) => Some(p * PAGE_SIZE + va % 0x1000000)
  }

  lemma FetchSlot(m: seq<Row>, p: nat, k: nat)
    requires k < 0x400
    ensures Fetch(m, p * 0x1000 + 4 * k) == if p < |m| then Some(m[p][k]) else None
  {
    DivMod(0x1000, p, 4 * k);
  }

  lemma FetchDesc(m: seq<Row>, t: Table, i: nat)
    requires Stored(m, t) && i < |t.l1|
    ensures WfDesc(t.l1[i]) && Fetch(m, Base14(t.base * PAGE_SIZE) + 4 * i) == Some(EncDesc(t.l1[i]))
  {
    assert HoldsDesc(m, t, i);
    BaseKept(t.base);
    var q, k := i / 0x400, i % 0x400;
    assert t.base * 0x1000 + 4 * i == (t.base + q) * 0x1000 + 4 * k;
    FetchSlot(m, t.base + q, k);
  }

  /** The 16 KiB mask on the table base loses nothing. */
  lemma BaseKept(base: nat)
    requires base % 4 == 0
    ensures Base14(base * PAGE_SIZE) == base * PAGE_SIZE
  {
    DivMod(0x4000, base / 4, 0);
    assert base * PAGE_SIZE == 0x4000 * (base / 4);
  }

  lemma SuperHighBits(p: nat)
    requires p % 0x1000 == 0 && p < 0x100000
    ensures EncDesc(DSuper(p)) / 0x100000 % 16 == 0 && EncDesc(DSuper(p)) / 0x20 % 16 == 0
  {
    var q := p / 0x1000;
    var w := EncDesc(DSuper(p));
    assert w == 0x100000 * (16 * q) + 0x40002 == 0x20 * (16 * (0x8000 * q + 0x200)) + 2;
    DivMod(0x100000, 16 * q, 0x40002);
    DivMod(16, q, 0);
    DivMod(0x20, 16 * (0x8000 * q + 0x200), 2);
    DivMod(16, 0x8000 * q + 0x200, 0);
  }

  lemma WalkIsWalkDesc(m: seq<Row>, t: Table, va: nat)
    requires Stored(m, t) && va / SECTION_SIZE < |t.l1|
    ensures WfDesc(t.l1[va / SECTION_SIZE])
    ensures Walk(m, t.base * PAGE_SIZE, va) == WalkDesc(t.l1[va / SECTION_SIZE], va)
  {
    hide EncDesc, EncEntry, Stored, Fetch;
    var i, j := va / SECTION_SIZE, va / PAGE_SIZE % 0x100;
    FetchDesc(m, t, i);
    DescFields(t.l1[i]);
    match t.l1[i]
    case DFree =>
    case DReserved =>
    case DSecond(p, es) =>
      FetchEntry(m, t, i, j);
      EntryFields(es[j]);
      EntryKinds(es[j]);
    case DSection(p) =>
    case DSuper(p) => SuperHighBits(p);
  }

  lemma FetchEntry(m: seq<Row>, t: Table, i: nat, j: nat)
    requires Stored(m, t) && i < |t.l1| && t.l1[i].DSecond? && j < 0x100
    ensures |t.l1[i].entries| == 0x100 && WfEntry(t.l1[i].entries[j])
    ensures Fetch(m, t.l1[i].frame * PAGE_SIZE + 4 * j) == Some(EncEntry(t.l1[i].entries[j]))
  {
    assert HoldsEntries(m, t.l1[i].frame, t.l1[i].entries);
    FetchSlot(m, t.l1[i].frame, j);
  }

  /** Large pages do not occur. */
  lemma EntryKinds(e: Entry)
    requires WfEntry(e)
    ensures EncEntry(e) % 4 == if e.EPage? then 2 else 0
  {
    if e.EPage? {
      TagFields(e.frame, 2);
    }
  }

  /** The fields of a virtual address. */
  lemma AddressFields(va: nat)
    ensures va / PAGE_SIZE / 0x100 == va / SECTION_SIZE
    ensures va % SECTION_SIZE == PAGE_SIZE * (va / PAGE_SIZE % 0x100) + va % PAGE_SIZE
    ensures va % SUPERSECTION_SIZE == SECTION_SIZE * (va / SECTION_SIZE % 16) + va % SECTION_SIZE
  {
    var v, i := va / PAGE_SIZE, va / SECTION_SIZE;
    assert va == SECTION_SIZE * (v / 0x100) + (PAGE_SIZE * (v % 0x100) + va % PAGE_SIZE);
    DivMod(SECTION_SIZE, v / 0x100, PAGE_SIZE * (v % 0x100) + va % PAGE_SIZE);
    assert va == SUPERSECTION_SIZE * (i / 16) + (SECTION_SIZE * (i % 16) + va % SECTION_SIZE);
    DivMod(SUPERSECTION_SIZE, i / 16, SECTION_SIZE * (i % 16) + va % SECTION_SIZE);
  }

  /** The flat map agrees with the descriptors at every byte. */
  lemma TranslateIsWalkDesc(t: Table, va: nat)
    requires WfDescs(t) && va / SECTION_SIZE < |t.l1|
    ensures Translate(t, va) == match WalkDesc(t.l1[va / SECTION_SIZE], va) case None => Failure case Some(pa) => Success(pa)
  {
    AddressFields(va);
  }

  /** On every table in memory, software translation and the hardware walk agree at every address; the table holds no
      descriptor the hardware could read differently. */
  lemma WalkEqualsTranslate(m: seq<Row>, t: Table, va: nat)
    requires Stored(m, t) && va / SECTION_SIZE < |t.l1|
    ensures Translate(t, va) == match Walk(m, t.base * PAGE_SIZE, va) case None => Failure case Some(pa) => Success(pa)
  {
    WalkIsWalkDesc(m, t, va);
    TranslateIsWalkDesc(t, va);
  }

  // ---------------------------------------------------------------- mapping, then translating

  /** After n units have been mapped, every byte of the range translates to the byte at the same offset of the physical
      range, which starts where the unit of p does, and every address outside it translates as before. */
  lemma MapThenTranslate(t: Table, g: Granularity, v: nat, p: nat, n: nat, va: nat)
    requires WfDescs(t) && |t.l1| % 16 == 0 && AllCommittable(t, g, v, n) && p + Span(g, n) <= 0x100000
    ensures var u := CommitRun(t, g, v, Consecutive(g, p, n));
            var start := PAGE_SIZE * UnitBase(g, v);
            Translate(u, va) ==
            if start <= va < start + PAGE_SIZE * Span(g, n) then Success(PAGE_SIZE * UnitBase(g, p) + (va - start))
            else Translate(t, va)
  {
    hide At, Committable, WfDescs, CommitRun, RunState, Span, UnitBase;
    var ps := Consecutive(g, p, n);
    var u := CommitRun(t, g, v, ps);
    BelowEnd(g, p, n);
    CommitRunAt(t, g, v, ps);
    var x := va / PAGE_SIZE;
    if n > 0 {
      RunFits(t, g, v, n);
    } else {
      UnitIndexFacts(g, 0, 0);
    }
    if x < PageCount(t) {
      assert At(u, x) == RunState(t, g, v, ps, x);
      RunOfConsecutive(t, g, v, p, n, x);
    }
  }

  lemma RunOfConsecutive(t: Table, g: Granularity, v: nat, p: nat, n: nat, x: nat)
    requires x < PageCount(t)
    ensures var b := UnitBase(g, v);
            RunState(t, g, v, Consecutive(g, p, n), x) ==
            if b <= x < b + Span(g, n) then Committed(UnitBase(g, p) + (x - b)) else At(t, x)
  {
    hide At;
    var b := UnitBase(g, v);
    if b <= x {
      UnitIndexFacts(g, x - b, n);
      UnitBaseStep(g, p, UnitIndex(g, x - b));
    }
  }

  /** A map that succeeds is such a mapping of all its units. */
  lemma MapSucceeds(s: Snapshot, q: Snapshot, g: Granularity, v: nat, p: nat, n: nat, va: nat)
    requires Coherent(s) && MapOutcome(s, Done(true), q, g, v, p, n) && p + Span(g, n) <= 0x100000
    ensures var start := PAGE_SIZE * UnitBase(g, v);
            Translate(q.t, va) ==
            if start <= va < start + PAGE_SIZE * Span(g, n) then Success(PAGE_SIZE * UnitBase(g, p) + (va - start))
            else Translate(s.t, va)
  {
    hide Coherent, Committable, WfDescs, CommitRun, Stored, OnlyTablePages, FreeInRun, Acquired, Translate;
    CoherentParts(s);
    ReadyMeans(s.t, g, v, n);
    MapThenTranslate(s.t, g, v, p, n, va);
  }

  lemma RunFits(t: Table, g: Granularity, v: nat, n: nat)
    requires AllCommittable(t, g, v, n) && n > 0
    ensures UnitBase(g, v) + Span(g, n) <= PageCount(t)
  {
    assert Committable(t, g, v + Span(g, n - 1));
    UnitBaseStep(g, v, n - 1);
    UnitIndexFacts(g, 0, n - 1);
  }

  /** Byte o of unit k from the given address on is byte o of the block at frame ps[k]. */
  ghost predicate ByteBacked(t: Table, g: Granularity, address: nat, ps: seq<nat>, k: nat, o: nat) {
    k < |ps| && Translate(t, address + 0x1000 * Span(g, k) + o) == Success(0x1000 * ps[k] + o)
  }

  /** The units from the given address on translate to the blocks at the frames ps, one after the other. */
  ghost predicate TranslatesTo(t: Table, g: Granularity, address: nat, ps: seq<nat>) {
    forall k: nat, o: nat :: k < |ps| && o < 0x1000 * Span(g, 1) ==> ByteBacked(t, g, address, ps, k, o)
  }

  /** Backing units is translating them to their blocks, in order. */
  lemma BackedTranslates(s: Snapshot, q: Snapshot, g: Granularity, v: nat, ps: seq<nat>)
    requires Backed(s, q, g, v, ps) && (ps != [] ==> UnitBase(g, v) + Span(g, |ps|) <= PageCount(s.t))
    ensures TranslatesTo(q.t, g, PAGE_SIZE * UnitBase(g, v), ps)
  {
    hide At, Translate;
    forall k: nat, o: nat | k < |ps| && o < 0x1000 * Span(g, 1) ensures ByteBacked(q.t, g, PAGE_SIZE * UnitBase(g, v), ps, k, o) {
      BackedByte(s, q, g, v, ps, k, o);
    }
  }

  lemma BackedByte(s: Snapshot, q: Snapshot, g: Granularity, v: nat, ps: seq<nat>, k: nat, o: nat)
    requires Backed(s, q, g, v, ps) && UnitBase(g, v) + Span(g, |ps|) <= PageCount(s.t) && k < |ps| && o < 0x1000 * Span(g, 1)
    ensures ByteBacked(q.t, g, PAGE_SIZE * UnitBase(g, v), ps, k, o)
  {
    hide At, RunState;
    var j := o / PAGE_SIZE;
    var u := UnitBase(g, v) + Span(g, k) + j;
    DivMod(PAGE_SIZE, u, o % PAGE_SIZE);
    assert PAGE_SIZE * UnitBase(g, v) + 0x1000 * Span(g, k) + o == PAGE_SIZE * u + o % PAGE_SIZE;
    UnitIndexFacts(g, 0, k);
    SpanMono(g, k + 1, |ps|);
    assert At(q.t, u) == RunState(s.t, g, v, ps, u);
    UnitOfRun(s.t, g, v, ps, k, j);
    assert BlockFree(s.a.counts, ps[k], Span(g, 1));
    AlignedUnit(g, ps[k]);
  }

  lemma UnitOfRun(t: Table, g: Granularity, v: nat, ps: seq<nat>, k: nat, j: nat)
    requires k < |ps| && j < Span(g, 1) && UnitBase(g, v) + Span(g, k) + j < PageCount(t)
    ensures RunState(t, g, v, ps, UnitBase(g, v) + Span(g, k) + j) == Committed(UnitBase(g, ps[k]) + j)
  {
    hide At;
    UnitIndexFacts(g, Span(g, k) + j, k);
  }

  // ---------------------------------------------------------------- reverse lookup

  /** Some page of section i maps frame p. */
  ghost predicate SectionMaps(t: Table, i: nat, p: nat) {
    i < |t.l1| && exists j: nat :: j < 0x100 && DescAt(t.l1[i], i, j) == Committed(p)
  }

  ghost predicate Maps(t: Table, p: nat) {
    exists v: nat :: v < PageCount(t) && At(t, v) == Committed(p)
  }

  lemma MapsSomewhere(t: Table, i: nat, p: nat)
    requires SectionMaps(t, i, p)
    ensures Maps(t, p)
  {
    var j: nat :| j < 0x100 && DescAt(t.l1[i], i, j) == Committed(p);
    AtPage(t, i, j);
  }

  lemma MapsNowhere(t: Table, p: nat)
    requires forall i: nat :: i < |t.l1| ==> !SectionMaps(t, i, p)
    ensures !Maps(t, p)
  {
    forall v: nat | v < PageCount(t) ensures At(t, v) != Committed(p) {
      assert !SectionMaps(t, v / 0x100, p);
    }
  }

  /** Some virtual address translates to pa. */
  ghost predicate Reached(t: Table, pa: nat) {
    exists va: nat :: Translate(t, va) == Success(pa)
  }

  lemma ReachedIffMapped(t: Table, pa: nat)
    ensures Reached(t, pa) <==> Maps(t, pa / PAGE_SIZE)
  {
    hide At;
    if Maps(t, pa / PAGE_SIZE) {
      var v: nat :| v < PageCount(t) && At(t, v) == Committed(pa / PAGE_SIZE);
      DivMod(PAGE_SIZE, v, pa % PAGE_SIZE);
      assert Translate(t, PAGE_SIZE * v + pa % PAGE_SIZE) == Success(pa);
    }
    if Reached(t, pa) {
      var va: nat :| Translate(t, va) == Success(pa);
      DivMod(PAGE_SIZE, At(t, va / PAGE_SIZE).frame, va % PAGE_SIZE);
    }
  }

  /** A section maps the frames of its own mebibyte. */
  lemma SectionMapsIff(t: Table, i: nat, p: nat)
    requires i < |t.l1| && t.l1[i].DSection? && WfDesc(t.l1[i])
    ensures SectionMaps(t, i, p) <==> p - p % 0x100 == t.l1[i].frame
  {
    var f := t.l1[i].frame;
    if p - p % 0x100 == f {
      assert DescAt(t.l1[i], i, p % 0x100) == Committed(p);
    }
    if SectionMaps(t, i, p) {
      var j: nat :| j < 0x100 && DescAt(t.l1[i], i, j) == Committed(p);
      DivMod(0x100, f / 0x100, j);
    }
  }

  /** A supersection's sixteen descriptors together map every frame of its sixteen mebibytes, and only those. */
  lemma SuperMapsIff(t: Table, i: nat, p: nat)
    requires i < |t.l1| && t.l1[i].DSuper? && WfDesc(t.l1[i]) && Uniform(t.l1) && |t.l1| % 16 == 0
    ensures p - p % 0x1000 == t.l1[i].frame ==> Maps(t, p)
    ensures p - p % 0x1000 != t.l1[i].frame ==> !SectionMaps(t, i, p)
  {
    var f := t.l1[i].frame;
    if p - p % 0x1000 == f {
      var q, j := p % 0x1000 / 0x100, p % 0x100;
      var k := i / 16 * 16 + q;
      DivMod(16, i / 16, q);
      assert p == f + 0x100 * q + j by {
        assert p == 0x1000 * (p / 0x1000) + p % 0x1000 == 0x100 * (16 * (p / 0x1000) + q) + p % 0x1000 % 0x100;
        DivMod(0x100, 16 * (p / 0x1000) + q, p % 0x1000 % 0x100);
      }
      assert t.l1[k] == t.l1[i];
      assert DescAt(t.l1[k], k, j) == Committed(p);
      MapsSomewhere(t, k, p);
    } else {
      forall j: nat | j < 0x100 ensures DescAt(t.l1[i], i, j) != Committed(p) {
        DivMod(0x1000, f / 0x1000, 0x100 * (i % 16) + j);
      }
    }
  }

  // ---------------------------------------------------------------- unit states

  datatype UnitState = UnitFree | UnitReserved | UnitCommitted

  function StateOf(x: PageState): UnitState {
    match x
    case Free => UnitFree
    case Reserved(_) => UnitReserved
    case Committed(_) => UnitCommitted
  }

  /** The state of an unsplit section. */
  function SectionState(d: Desc): UnitState {
    match d
    case DFree => UnitFree
    case DReserved => UnitReserved
    case _ => UnitCommitted
  }

  lemma SectionStateIsAll(t: Table, i: nat, j: nat)
    requires i < |t.l1| && !t.l1[i].DSecond? && j < 0x100
    ensures 0x100 * i + j < PageCount(t) && StateOf(At(t, 0x100 * i + j)) == SectionState(t.l1[i])
  {
    AtPage(t, i, j);
  }

  /** The sixteen sections from i on are in the table, unsplit and all in state x. */
  predicate GroupState(t: Table, i: nat, x: UnitState) {
    i + 16 <= |t.l1| && forall k :: i <= k < i + 16 ==> !t.l1[k].DSecond? && SectionState(t.l1[k]) == x
  }

  /** What get_unit_state reports: for a page the flat map; for a section its state unless it is split or out of range;
      for a supersection the common state of its sixteen sections, if they have one. */
  ghost predicate UnitStateIs(t: Table, va: nat, g: Granularity, r: Result<UnitState>) {
    match g
    case Page =>
      var v := va / PAGE_SIZE;
      r == if v < PageCount(t) then Success(StateOf(At(t, v))) else Failure
    case Section =>
      var i := va / SECTION_SIZE;
      r == if i < |t.l1| && !t.l1[i].DSecond? then Success(SectionState(t.l1[i])) else Failure
    case Supersection =>
      match r
      case Success(x) => GroupState(t, 16 * (va / SUPERSECTION_SIZE), x)
      case Failure => forall x :: !GroupState(t, 16 * (va / SUPERSECTION_SIZE), x)
  }

  /** The same in terms of the flat map and the descriptors: a page is reported as it is; an unsplit section as all its pages
      are; a supersection as its sixteen sections are, if they are all unsplit and alike. */
  ghost predicate UnitReads(t: Table, va: nat, g: Granularity, r: Result<UnitState>) {
    match g
    case Page =>
      var v := va / 0x1000;
      && (r == Success(UnitFree) <==> v < PageCount(t) && At(t, v) == Free)
      && (r == Success(UnitReserved) <==> v < PageCount(t) && At(t, v).Reserved?)
      && (r == Success(UnitCommitted) <==> v < PageCount(t) && At(t, v).Committed?)
    case Section =>
      var i := va / 0x100000;
      && (r.Success? <==> i < |t.l1| && !t.l1[i].DSecond?)
      && (r == Success(UnitFree) ==> forall v: nat :: v / 0x100 == i && v < PageCount(t) ==> At(t, v) == Free)
      && (r == Success(UnitReserved) ==> forall v: nat :: v / 0x100 == i && v < PageCount(t) ==> At(t, v) == Reserved(Section))
      && (r == Success(UnitCommitted) ==> forall v: nat :: v / 0x100 == i && v < PageCount(t) ==> At(t, v).Committed?)
    case Supersection =>
      var i := va / 0x1000000 * 16;
      && (r == Success(UnitFree) <==> i + 16 <= |t.l1| && forall k :: i <= k < i + 16 ==> t.l1[k].DFree?)
      && (r == Success(UnitReserved) <==> i + 16 <= |t.l1| && forall k :: i <= k < i + 16 ==> t.l1[k].DReserved?)
      && (r == Success(UnitCommitted) <==> i + 16 <= |t.l1| && forall k :: i <= k < i + 16 ==> t.l1[k].DSection? || t.l1[k].DSuper?)
  }

  lemma UnitStateReads(t: Table, va: nat, g: Granularity, r: Result<UnitState>)
    requires UnitStateIs(t, va, g, r)
    ensures UnitReads(t, va, g, r)
  {
    match g
    case Page =>
    case Section =>
    case Supersection =>
      hide GroupState;
      var i := 16 * (va / SUPERSECTION_SIZE);
      GroupReads(t, i);
      OneState(t, i);
      assert r.Failure? ==> !GroupState(t, i, UnitFree) && !GroupState(t, i, UnitReserved) && !GroupState(t, i, UnitCommitted);
  }

  lemma OneState(t: Table, i: nat)
    ensures forall x, y :: GroupState(t, i, x) && GroupState(t, i, y) ==> x == y
  {
    if i + 16 <= |t.l1| {
      assert i <= i < i + 16 && SectionState(t.l1[i]) == SectionState(t.l1[i]);
    }
  }

  lemma GroupReads(t: Table, i: nat)
    ensures GroupState(t, i, UnitFree) <==> i + 16 <= |t.l1| && forall k :: i <= k < i + 16 ==> t.l1[k].DFree?
    ensures GroupState(t, i, UnitReserved) <==> i + 16 <= |t.l1| && forall k :: i <= k < i + 16 ==> t.l1[k].DReserved?
    ensures GroupState(t, i, UnitCommitted) <==> i + 16 <= |t.l1| && forall k :: i <= k < i + 16 ==> t.l1[k].DSection? || t.l1[k].DSuper?
  {
  }

  /** get_state_from_descriptor */
  function WordState(w: word): UnitState {
    if Low3(w) == 0 then UnitFree else if Low3(w) == 4 then UnitReserved else UnitCommitted
  }

  lemma DescState(d: Desc)
    requires WfDesc(d) && !d.DSecond?
    ensures WordState(EncDesc(d)) == SectionState(d)
  {
    DescFields(d);
  }

  lemma EntryWordState(e: Entry)
    requires WfEntry(e)
    ensures WordState(EncEntry(e)) == StateOf(EntryState(e))
  {
    EntryFields(e);
  }

  /** The states seen in the first k sections of a group. */
  ghost predicate GroupSeen(t: Table, i: nat, k: nat, free: bool, reserved: bool, committed: bool) {
    && i + k <= |t.l1|
    && (forall n :: i <= n < i + k ==> !t.l1[n].DSecond?)
    && (free <==> forall n :: i <= n < i + k ==> SectionState(t.l1[n]) == UnitFree)
    && (reserved <==> forall n :: i <= n < i + k ==> SectionState(t.l1[n]) == UnitReserved)
    && (committed <==> forall n :: i <= n < i + k ==> SectionState(t.l1[n]) == UnitCommitted)
  }

  lemma GroupSeenNext(t: Table, i: nat, k: nat, free: bool, reserved: bool, committed: bool)
    requires GroupSeen(t, i, k, free, reserved, committed) && i + k < |t.l1| && !t.l1[i + k].DSecond?
    ensures var x := SectionState(t.l1[i + k]);
            GroupSeen(t, i, k + 1, free && x == UnitFree, reserved && x == UnitReserved, committed && x == UnitCommitted)
  {
    hide SectionState;
  }

  lemma GroupSeenAll(t: Table, i: nat, free: bool, reserved: bool, committed: bool)
    requires GroupSeen(t, i, 16, free, reserved, committed)
    ensures GroupState(t, i, UnitFree) <==> free
    ensures GroupState(t, i, UnitReserved) <==> reserved
    ensures GroupState(t, i, UnitCommitted) <==> committed
  {
    hide SectionState;
  }

  lemma GroupBroken(t: Table, i: nat, k: nat)
    requires k < 16 && (i + k >= |t.l1| || t.l1[i + k].DSecond?)
    ensures forall x :: !GroupState(t, i, x)
  {
  }
}
