/** The ELF loader: reserves and allocates the loadable segments of an image, and copies its sections to where the
    table maps them. The processor translates the copy's destinations through the same table. */
module ElfLoader {
  import opened Bits
  import opened Outcomes
  import opened Descriptors
  import opened AddressSpace
  import opened References
  import opened Frames
  import opened Memory
  import opened TableMemory
  import opened Evolution
  import opened Reservation
  import opened Allocation
  import opened Translation
  import opened Bytes
  import opened Copying
  import opened Leasing
  import opened ElfImage
  import opened ElfPlan
  import opened ElfMeaning
  import opened PageTables

  /** How a load ends: at the entry point, refused, or in a data abort while copying. */
  datatype LoadResult = LoadedAt(entry: word) | Refused | Aborted

  // ---------------------------------------------------------------- the table stays out of its own reach

  /** A page that an operation has backed is not one of the table's own pages. */
  lemma BackedIsolated(q: Snapshot, r: Snapshot, v: nat, ps: seq<nat>)
    requires SelfIsolated(q.t) && q.t.counted && Coherent(q) && Coherent(r) && Evolves(q, r) && OnlyFreshFrames(q, r)
    requires Backed(q, r, Page, v, ps)
    ensures SelfIsolated(r.t)
  {
    hide At, TableFrame, Covered, Refs;
    forall u, p: nat | 0 <= u < PageCount(r.t) && At(r.t, u) == Committed(p) ensures !TableFrame(r.t, p) {
      BackedPage(q, r, v, ps, u);
      if TableFrame(r.t, p) {
        InMemoryFrame(r, p);
        if v <= u < v + |ps| {
          MappedTableFrame(r.t, u, p);
          CoveredAt(r, p);
        } else {
          MappedInUse(q, u, p);
        }
        assert false;
      }
    }
  }

  lemma InMemoryFrame(s: Snapshot, p: nat)
    requires Coherent(s) && TableFrame(s.t, p)
    ensures p < |s.a.counts|
  {
  }

  lemma CoveredAt(s: Snapshot, p: nat)
    requires Coherent(s) && p < |s.a.counts|
    ensures Refs(s.t, p) <= s.a.counts[p]
  {
    hide Refs;
  }

  // ---------------------------------------------------------------- segments

  /** The addresses of the loadable segments do not wrap. */
  predicate NoWrap(gs: seq<Segment>) {
    forall i :: 0 <= i < |gs| && gs[i].pType == PT_LOAD ==> gs[i].pVaddr / PAGE_SIZE + PagesFor(gs[i].pMemsz) <= 0x100000
  }

  /** The first i segments have been loaded since the state s. */
  ghost predicate LoadedSince(table: PageTable, s: Snapshot, gs: seq<Segment>, i: nat)
    reads table, table.alloc, table.alloc.counts, table.alloc.mem
  {
    && table.Valid() && SelfIsolated(table.tab) && Progress(s, table.Snap(), gs, i) && SegmentsFilled(s, table.Snap(), gs, i)
    && Evolves(s, table.Snap()) && OnlyFreshFrames(s, table.Snap())
  }

  /** Loads segment i: reserves and allocates its pages if it fits. */
  method LoadSegment(img: Image, table: PageTable, i: nat, ghost s: Snapshot) returns (r: Outcome<bool>)
    requires i < |img.segments| && NoWrap(img.segments) && LoadedSince(table, s, img.segments, i)
    modifies table`tab, table.alloc, table.alloc.counts, table.alloc.mem
    ensures r.Panicked? ==> LoadPanic(s.a, s.t, img.segments, i + 1) == r.Panic()
    ensures r.Done? && r.value ==> LoadedSince(table, s, img.segments, i + 1)
    ensures r.Done? && !r.value ==> LoadedSince(table, s, img.segments, i) && !SegmentFits(s.t, img.segments, i)
  {
    hide Coherent, Evolves, OnlyFreshFrames, WfAlloc, NonZero, Aligned, SelfIsolated, Progress, Backed, Placeable, PagesFor, Taken,
      AfterReserveAt, AllocRun, LoadPanic, SegmentBacked, SegmentFits, NoWrap, SegmentsFilled, OnlyFilled;
    var g := img.segments[i];
    ghost var q := table.Snap();
    if g.pType != PT_LOAD {
      ProgressSkips(s, q, img.segments, i);
      FilledSkips(s, q, img.segments, i);
      return Done(true);
    }
    if g.pVaddr % PAGE_SIZE != 0 {
      UnalignedMisfit(s.t, img.segments, i);
      return Done(false);
    }
    var n := PagesFor(g.pMemsz);
    PageAligned(table.alloc.numPages);
    SegmentAddressable(img.segments, i);
    NextFits(s, q, img.segments, i);
    var x, ps := table.ReserveAllocateAt(g.pVaddr, n, Page);
    if x.Panicked? {
      return Panicked(x.code);
    }
    if x.value.Failure? {
      return Done(false);
    }
    SegmentProgress(s, q, table.Snap(), img.segments, i, ps);
    BackedIsolated(q, table.Snap(), g.pVaddr / PAGE_SIZE, ps);
    EvolvesTrans(s, q, table.Snap());
    return Done(true);
  }

  lemma UnalignedMisfit(t: Table, gs: seq<Segment>, i: nat)
    requires i < |gs| && gs[i].pType == PT_LOAD && gs[i].pVaddr % PAGE_SIZE != 0
    ensures !SegmentFits(t, gs, i)
  {
  }

  lemma SegmentAddressable(gs: seq<Segment>, i: nat)
    requires NoWrap(gs) && i < |gs| && gs[i].pType == PT_LOAD
    ensures var v := gs[i].pVaddr / PAGE_SIZE; Addressable(Page, v, PagesFor(gs[i].pMemsz)) && UnitBase(Page, v) == v
    ensures forall n :: Span(Page, n) == n
  {
  }

  /** What the reservation and allocation of an aligned segment will come to. */
  lemma NextFits(s: Snapshot, q: Snapshot, gs: seq<Segment>, i: nat)
    requires Progress(s, q, gs, i) && i < |gs| && gs[i].pType == PT_LOAD && gs[i].pVaddr % PAGE_SIZE == 0
    ensures var v, n := gs[i].pVaddr / PAGE_SIZE, PagesFor(gs[i].pMemsz);
            && (SegmentFits(s.t, gs, i) <==> Placeable(q.t, Page, v, n))
            && (SegmentFits(s.t, gs, i) ==>
                  LoadPanic(s.a, s.t, gs, i + 1) == BackingPanic(AfterReserveAt(q.a, q.t, Page, v, n), q.t.counted, Page, n))
  {
    hide SegmentsLoaded, AllocRun, SegmentFits, AfterReserveAt, LoadPanic, AllFit, Untouched, FramesNeeded;
    FitsIffPlaceable(s, q.t, gs, i);
    if SegmentFits(s.t, gs, i) {
      PlaceableFits(q.t, FirstPage(gs[i]), Pages(gs[i]));
      NextPanics(s, q, gs, i);
    }
  }

  /** The state after the next segment has been reserved and allocated. */
  lemma SegmentProgress(s: Snapshot, q: Snapshot, z: Snapshot, gs: seq<Segment>, i: nat, ps: seq<nat>)
    requires Progress(s, q, gs, i) && i < |gs| && gs[i].pType == PT_LOAD && gs[i].pVaddr % PAGE_SIZE == 0 && SegmentFits(s.t, gs, i)
    requires Coherent(q) && q.t.counted && Evolves(s, q) && Evolves(q, z)
    requires var v, n := gs[i].pVaddr / PAGE_SIZE, PagesFor(gs[i].pMemsz);
             && Placeable(q.t, Page, v, n) && |ps| == n && Backed(q, z, Page, v, ps) && Taken(q.t, z.t, v, n)
             && var b := AfterReserveAt(q.a, q.t, Page, v, n);
                b.Some? && AllocRun(b.value, 1, n) == Some(Grants(z.a, ps))
    requires SegmentsFilled(s, q, gs, i) && OnlyFilled(q, z, ps)
    ensures Progress(s, z, gs, i + 1) && SegmentsFilled(s, z, gs, i + 1)
  {
    hide SegmentsLoaded, AllocRun, SegmentFits, AfterReserveAt, LoadPanic, AllFit, Untouched, FramesNeeded, Coherent, Taken, PagesFor,
      SegmentsFilled, OnlyFilled;
    PlaceableFits(q.t, FirstPage(gs[i]), Pages(gs[i]));
    ProgressNext(s, q, z, gs, i, ps);
    FilledNext(s, q, z, gs, i, ps);
  }

  lemma PageAligned(n: nat)
    ensures Aligned(n, Span(Page, 1))
  {
  }

  lemma PlaceableFits(t: Table, v: nat, n: nat)
    requires Placeable(t, Page, v, n)
    ensures n > 0 ==> v + n <= PageCount(t)
  {
  }

  lemma LoadStarts(table: PageTable, gs: seq<Segment>)
    requires table.Valid() && SelfIsolated(table.tab)
    ensures LoadedSince(table, table.Snap(), gs, 0)
  {
    hide Coherent, Evolves, OnlyFreshFrames, WfAlloc, SelfIsolated, Progress, SegmentsFilled;
    CoherentShape(table.Snap());
    EvolvesRefl(table.Snap());
    ProgressStarts(table.Snap(), gs);
    FilledStarts(table.Snap(), gs);
  }

  /** The segment loop of load_elf: loads all segments, stops at the first one that does not fit, or panics; and which of
      these, the state before decides. */
  method LoadSegments(img: Image, table: PageTable) returns (r: Outcome<bool>, ghost i: nat)
    requires NoWrap(img.segments) && table.Valid() && SelfIsolated(table.tab)
    modifies table`tab, table.alloc, table.alloc.counts, table.alloc.mem
    ensures r.Panic() == LoadPanic(old(table.alloc.View()), old(table.tab), img.segments, |img.segments|)
    ensures r.Done? ==> (r.value <==> AllFit(old(table.tab), img.segments, |img.segments|))
    ensures r.Done? ==> LoadedSince(table, old(table.Snap()), img.segments, i)
                        && if r.value then i == |img.segments| else i < |img.segments| && !SegmentFits(old(table.tab), img.segments, i)
  {
    hide LoadedSince, NoWrap, SelfIsolated, PageTable.Valid, AllFit, SegmentFits, LoadPanic;
    ghost var s := table.Snap();
    LoadStarts(table, img.segments);
    for k := 0 to |img.segments|
      invariant LoadedSince(table, s, img.segments, k)
    {
      r := LoadSegment(img, table, k, s);
      if r.Panicked? {
        PanicEnds(s.a, s.t, img.segments, k + 1, |img.segments|);
        return r, k;
      }
      if !r.value {
        SoFar(table, s, img.segments, k);
        MisfitEnds(s.a, s.t, img.segments, k, |img.segments|);
        return r, k;
      }
    }
    SoFar(table, s, img.segments, |img.segments|);
    return Done(true), |img.segments|;
  }

  lemma SoFar(table: PageTable, s: Snapshot, gs: seq<Segment>, i: nat)
    requires LoadedSince(table, s, gs, i)
    ensures i <= |gs| && LoadPanic(s.a, s.t, gs, i).None? && AllFit(s.t, gs, i)
  {
    hide PageTable.Valid, SelfIsolated, Evolves, OnlyFreshFrames, Untouched, FramesNeeded, AllocRun, LoadPanic, AllFit, SegmentsFilled;
  }

  // ---------------------------------------------------------------- copying

  /** The table is in memory, and out of the reach of stores that go through it. */
  ghost predicate Isolated(table: PageTable)
    reads table, table.alloc.mem
  {
    table.TableStored() && SelfIsolated(table.tab)
  }

  /** *dest = *src, with dest translated through the table; false is a data abort. */
  method StoreByte(table: PageTable, dest: nat, src: nat) returns (ok: bool)
    requires Isolated(table)
    modifies table.alloc.mem
    ensures ok <==> CopyByte(old(table.alloc.mem[..]), table.tab, dest, src).Some?
    ensures table.alloc.mem[..] == if ok then CopyByte(old(table.alloc.mem[..]), table.tab, dest, src).value else old(table.alloc.mem[..])
    ensures Isolated(table)
  {
    hide Stored, SelfIsolated, Translate, Lane, SetLane;
    ghost var m := table.alloc.mem[..];
    var x := table.VirtualToPhysical(dest);
    ok := x.Success? && x.value / 0x1000 < table.alloc.mem.Length && src / 0x1000 < table.alloc.mem.Length;
    if !ok {
      return;
    }
    CopyByteKept(m, table.tab, dest, src);
    var pa := x.value;
    var w := table.Load(Slot(src / 0x1000, src % 0x1000 / 4));
    var s := Slot(pa / 0x1000, pa % 0x1000 / 4);
    var d := table.Load(s);
    table.Store(s, SetLane(d, pa % 4, Lane(w, src % 4)));
  }

  lemma CopyByteKept(m: seq<Row>, t: Table, dest: nat, src: nat)
    requires Stored(m, t) && SelfIsolated(t) && CopyByte(m, t, dest, src).Some?
    ensures Stored(CopyByte(m, t, dest, src).value, t)
  {
    hide CopyByte;
    CopyByteMapped(m, t, dest, src);
    MappedKeepsTable(m, CopyByte(m, t, dest, src).value, t);
  }

  /** memcpy, through the table. */
  method CopyMemory(table: PageTable, dest: nat, src: nat, n: nat) returns (ok: bool)
    requires Isolated(table)
    modifies table.alloc.mem
    ensures ok <==> CopyBytes(old(table.alloc.mem[..]), table.tab, dest, src, n).Some?
    ensures ok ==> table.alloc.mem[..] == CopyBytes(old(table.alloc.mem[..]), table.tab, dest, src, n).value
    ensures Isolated(table)
  {
    hide Isolated, CopyByte;
    ghost var m := table.alloc.mem[..];
    for k := 0 to n
      invariant Isolated(table) && CopyBytes(m, table.tab, dest, src, k) == Some(table.alloc.mem[..])
    {
      ok := StoreByte(table, dest + k, src + k);
      if !ok {
        CopyBytesAborted(m, table.tab, dest, src, k + 1, n);
        return;
      }
    }
    ok := true;
  }

  /** A copy that aborts early aborts. */
  lemma {:induction false} CopyBytesAborted(m: seq<Row>, t: Table, dest: nat, src: nat, k: nat, n: nat)
    requires k <= n && CopyBytes(m, t, dest, src, k).None?
    ensures CopyBytes(m, t, dest, src, n).None?
  {
    hide CopyByte;
    if k < n {
      CopyBytesAborted(m, t, dest, src, k, n - 1);
    }
  }

  lemma {:induction false} CopySectionsAborted(m: seq<Row>, t: Table, img: Image, k: nat, n: nat)
    requires k <= n <= |img.sections| && CopySections(m, t, img, k).None?
    ensures CopySections(m, t, img, n).None?
  {
    if k < n {
      CopySectionsAborted(m, t, img, k, n - 1);
    }
  }

  /** The section loop of load_elf. */
  method CopyAllSections(img: Image, table: PageTable) returns (ok: bool)
    requires Isolated(table)
    modifies table.alloc.mem
    ensures ok <==> CopySections(old(table.alloc.mem[..]), table.tab, img, |img.sections|).Some?
    ensures ok ==> table.alloc.mem[..] == CopySections(old(table.alloc.mem[..]), table.tab, img, |img.sections|).value
    ensures Isolated(table)
  {
    hide Isolated, CopyBytes, Bit1;
    ghost var m := table.alloc.mem[..];
    for i := 0 to |img.sections|
      invariant Isolated(table) && CopySections(m, table.tab, img, i) == Some(table.alloc.mem[..])
    {
      var x := img.sections[i];
      if x.shType == SHT_PROGBITS && Bit1(x.shFlags) {
        ok := CopyMemory(table, x.shAddr, img.address + x.shOffset, x.shSize);
        if !ok {
          CopySectionsAborted(m, table.tab, img, i + 1, |img.sections|);
          return;
        }
      }
    }
    ok := true;
  }

  // ---------------------------------------------------------------- load_elf

  /** load_elf. It refuses an image exactly when its headers are of the wrong size or some segment does not fit: is not
      aligned, has a page that is out of range or not free, or meets an earlier segment. It panics exactly when the
      allocator cannot grant the frames that the segments before need, or the table does not count. Otherwise all segments
      are on fresh frames, and the sections of a sound image are in place. */
  method LoadElf(img: Image, table: PageTable) returns (r: Outcome<LoadResult>)
    requires NoWrap(img.segments) && table.Valid() && SelfIsolated(table.tab)
    modifies table`tab, table.alloc, table.alloc.counts, table.alloc.mem
    ensures r.Panic() == if HeadersOk(img) then LoadPanic(old(table.alloc.View()), old(table.tab), img.segments, |img.segments|) else None
    ensures r.Done? ==> (r.value.Refused? <==> !HeadersOk(img) || !AllFit(old(table.tab), img.segments, |img.segments|))
    ensures r.Done? ==> table.Valid() && SelfIsolated(table.tab)
    ensures !HeadersOk(img) ==> table.Snap() == old(table.Snap())
    ensures r.Done? && !r.value.Refused? ==> SegmentsLoaded(old(table.Snap()), table.tab, img.segments, |img.segments|)
    ensures r.Done? && r.value.Refused? && HeadersOk(img) ==> StoppedShort(old(table.Snap()), table.Snap(), img.segments)
    ensures r.Done? && !r.value.Refused? ==> Progress(old(table.Snap()), table.Snap(), img.segments, |img.segments|)
    ensures r.Done? && r.value.LoadedAt? ==> r.value.entry == img.entry
    ensures r.Done? && ImageSound(old(table.Snap()), img)
            ==> !r.value.Aborted? && Evolves(old(table.Snap()), table.Snap()) && OnlyFreshFrames(old(table.Snap()), table.Snap())
                && FreshCommits(old(table.Snap()), table.Snap())
    ensures r.Done? && r.value.LoadedAt? && ImageSound(old(table.Snap()), img)
            ==> AllInPlace(old(table.alloc.mem[..]), table.alloc.mem[..], table.tab, img)
    ensures r.Done? && r.value.LoadedAt? && ImageSound(old(table.Snap()), img) ==>
              forall i: nat, k: nat ::
                (i < |img.sections| && img.sections[i].shType == 1 && img.sections[i].shFlags / 2 % 2 == 1 && k < img.sections[i].shSize)
                ==> ByteInPlace(old(table.alloc.mem[..]), table.alloc.mem[..], table.tab, img, img.sections[i], k)
    ensures r.Done? && ImageSound(old(table.Snap()), img) ==>
              var s, m := old(table.Snap()), table.alloc.mem[..];
              |m| == |s.m| == |s.a.counts| && forall p: nat :: p < |m| && s.a.counts[p] > 0 && !TableFrame(s.t, p) ==> m[p] == s.m[p]
    ensures r.Done? && r.value.LoadedAt? && ImageSound(old(table.Snap()), img)
            ==> RestOfMemory(old(table.Snap()), table.alloc.mem[..], table.tab, img)
  {
    hide LoadedSince, NoWrap, SelfIsolated, PageTable.Valid, SegmentsLoaded, ImageSound, AllInPlace, Isolated, Coherent,
      WfAlloc, Aligned, Evolves, OnlyFreshFrames, FreshCommits, LoadPanic, AllFit, Progress, TableFrame, ByteInPlace,
      SegmentsFilled, RestOfMemory, SegmentFits;
    ghost var s := table.Snap();
    ValidEvolves(table);
    UsedKept(s, s);
    if img.phentsize != SIZEOF_PHDR || img.shentsize != SIZEOF_SHDR || img.shnum == 0xffff {
      return Done(Refused);
    }
    var x, i := LoadSegments(img, table);
    if x.Panicked? {
      return Panicked(x.code);
    }
    LoadedState(table, s, img.segments, i);
    UsedKept(s, table.Snap());
    if !x.value {
      return Done(Refused);
    }
    ghost var q := table.Snap();
    var ok := CopyAllSections(img, table);
    CopiedState(table, q);
    ProgressInMemory(s, q, table.Snap(), img.segments, i);
    if ImageSound(s, img) {
      LoadedInPlace(s, q, img);
      RestIsLeft(s, q, img);
      LoadConfined(s, q, img);
      SameCountsFresh(s, q, table.Snap());
      UsedKept(s, table.Snap());
      if ok {
        AllBytesInPlace(s.m, table.alloc.mem[..], table.tab, img);
      }
    }
    r := Done(if ok then LoadedAt(img.entry) else Aborted);
  }

  lemma ValidEvolves(table: PageTable)
    requires table.Valid()
    ensures var s := table.Snap(); |s.m| == |s.a.counts| && Evolves(s, s) && OnlyFreshFrames(s, s) && FreshCommits(s, s)
  {
    CoherentShape(table.Snap());
    EvolvesRefl(table.Snap());
  }

  lemma UsedKept(s: Snapshot, z: Snapshot)
    requires Evolves(s, z) && |s.m| == |s.a.counts|
    ensures |z.m| == |s.m| && forall p: nat :: p < |z.m| && s.a.counts[p] > 0 && !TableFrame(s.t, p) ==> z.m[p] == s.m[p]
  {
    hide TableFrame, At, Refs;
  }

  lemma ProgressInMemory(s: Snapshot, q: Snapshot, z: Snapshot, gs: seq<Segment>, i: nat)
    requires Progress(s, q, gs, i) && z.a == q.a && z.t == q.t
    ensures Progress(s, z, gs, i)
  {
    hide SegmentsLoaded, AllFit, Untouched, LoadPanic, FramesNeeded, AllocRun, InOrder;
  }

  /** Every byte of every section of type 1 with bit 1 of its flags set is in place. */
  lemma AllBytesInPlace(m: seq<Row>, r: seq<Row>, t: Table, img: Image)
    requires AllInPlace(m, r, t, img)
    ensures forall i: nat, k: nat ::
              (i < |img.sections| && img.sections[i].shType == 1 && img.sections[i].shFlags / 2 % 2 == 1 && k < img.sections[i].shSize)
              ==> ByteInPlace(m, r, t, img, img.sections[i], k)
  {
    hide ByteInPlace;
    forall i: nat, k: nat | i < |img.sections| && img.sections[i].shType == 1 && img.sections[i].shFlags / 2 % 2 == 1
                            && k < img.sections[i].shSize
      ensures ByteInPlace(m, r, t, img, img.sections[i], k)
    {
      assert Loaded(img.sections[i]) && SectionInPlace(m, r, t, img, img.sections[i]);
    }
  }

  lemma SameCountsFresh(s: Snapshot, q: Snapshot, r: Snapshot)
    requires OnlyFreshFrames(s, q) && FreshCommits(s, q) && r.a == q.a && r.t == q.t
    ensures OnlyFreshFrames(s, r) && FreshCommits(s, r)
  {
    hide FreshAt;
  }

  lemma LoadedState(table: PageTable, s: Snapshot, gs: seq<Segment>, i: nat)
    requires LoadedSince(table, s, gs, i)
    ensures table.Valid() && SelfIsolated(table.tab) && SegmentsLoaded(s, table.tab, gs, i) && Progress(s, table.Snap(), gs, i)
    ensures SegmentsFilled(s, table.Snap(), gs, i)
    ensures Evolves(s, table.Snap()) && OnlyFreshFrames(s, table.Snap()) && FreshCommits(s, table.Snap())
    ensures Isolated(table) && |s.m| == |s.a.counts|
    ensures table.alloc.Valid() && Aligned(table.alloc.numPages, 4) && Coherent(table.Snap())
  {
    hide SelfIsolated, SegmentsLoaded, Stored, Covered, Uniform, Balanced, CountsGrow, TablePagesGrow, PagesForward, Confined, WfAlloc,
      FreshCommits, AllFit, Untouched, FramesNeeded, AllocRun, LoadPanic, SegmentsFilled;
    LoadCommitsFresh(s, table.Snap(), gs, i);
  }

  /** Copying changes memory alone. */
  lemma CopiedState(table: PageTable, q: Snapshot)
    requires Isolated(table) && q.a == table.alloc.View() && q.t == table.tab && Coherent(q)
    requires table.alloc.Valid() && Aligned(table.alloc.numPages, 4)
    ensures table.Valid() && SelfIsolated(table.tab)
  {
    hide Stored, Covered, Uniform, WfAlloc, Aligned, SelfIsolated;
  }
}
