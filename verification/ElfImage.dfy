/** An ELF executable in memory, and what loading it through a page table achieves. */
module ElfImage {
  import opened Bits
  import opened Outcomes
  import opened Descriptors
  import opened AddressSpace
  import opened References
  import opened Frames
  import opened Memory
  import opened Evolution
  import opened Leasing
  import opened Allocation
  import opened Translation
  import opened Bytes
  import opened Copying

  const PT_LOAD := 1
  const SHT_PROGBITS := 1
  const SIZEOF_PHDR := 32
  const SIZEOF_SHDR := 40

  /** The fields of a program header that the loader reads. */
  datatype Segment = Segment(pType: word, pVaddr: word, pMemsz: word)

  /** The fields of a section header that the loader reads. */
  datatype Section = Section(shType: word, shFlags: word, shAddr: word, shOffset: word, shSize: word)

  /** An image at a physical address, with its header fields and its two header tables. */
  datatype Image = Image(address: nat, phentsize: nat, shentsize: nat, shnum: nat, entry: word,
                         segments: seq<Segment>, sections: seq<Section>)

  /** get_num_allocation_units(bytes, Page) */
  function PagesFor(bytes: nat): nat {
    bytes / PAGE_SIZE + if bytes % PAGE_SIZE != 0 then 1 else 0
  }

  lemma PagesForCovers(bytes: nat)
    ensures bytes <= PAGE_SIZE * PagesFor(bytes) < bytes + PAGE_SIZE
  {
  }

  predicate HeadersOk(img: Image) {
    img.phentsize == SIZEOF_PHDR && img.shentsize == SIZEOF_SHDR && img.shnum != 0xffff
  }

  /** Page u belongs to the loadable segment g. */
  predicate InSegment(g: Segment, u: nat) {
    g.pType == PT_LOAD && g.pVaddr / PAGE_SIZE <= u < g.pVaddr / PAGE_SIZE + PagesFor(g.pMemsz)
  }

  /** Page u belongs to one of the first i segments. */
  ghost predicate InSegments(gs: seq<Segment>, i: nat, u: nat) {
    exists j: nat :: j < i && j < |gs| && InSegment(gs[j], u)
  }

  /** Page u was free in state s, and t, which counts references, backs it with a frame that was free too. */
  ghost predicate FreshPage(s: Snapshot, t: Table, u: nat) {
    && u < PageCount(s.t) && At(s.t, u) == Free
    && u < PageCount(t) && At(t, u).Committed? && t.counted && At(t, u).frame < |s.a.counts| && s.a.counts[At(t, u).frame] == 0
  }

  /** The first i segments are loaded in t: each page of them was free in state s and is backed by a frame of its own
      that was free too, their page ranges are disjoint, and no other page has changed. */
  ghost predicate SegmentsLoaded(s: Snapshot, t: Table, gs: seq<Segment>, i: nat) {
    && i <= |gs| && PageCount(t) == PageCount(s.t)
    && (forall j :: 0 <= j < i && gs[j].pType == PT_LOAD ==> gs[j].pVaddr % PAGE_SIZE == 0)
    && (forall u: nat :: InSegments(gs, i, u) ==> FreshPage(s, t, u))
    && (forall u: nat, w: nat :: u < w && InSegments(gs, i, u) && InSegments(gs, i, w) ==> At(t, u) != At(t, w))
    && (forall u: nat :: u < PageCount(t) && !InSegments(gs, i, u) ==> At(t, u) == At(s.t, u))
    && (forall j, k, u: nat :: 0 <= j < k < i && InSegment(gs[j], u) ==> !InSegment(gs[k], u))
  }

  lemma NoSegments(s: Snapshot, gs: seq<Segment>)
    ensures SegmentsLoaded(s, s.t, gs, 0)
  {
    forall u: nat ensures !InSegments(gs, 0, u) {
    }
  }

  lemma InSegmentsNext(gs: seq<Segment>, i: nat, u: nat)
    requires i < |gs|
    ensures InSegments(gs, i + 1, u) <==> InSegments(gs, i, u) || InSegment(gs[i], u)
  {
    if InSegments(gs, i + 1, u) {
      var j: nat :| j < i + 1 && InSegment(gs[j], u);
      assert j < i ==> InSegments(gs, i, u);
    }
    if InSegments(gs, i, u) {
      var j: nat :| j < i && InSegment(gs[j], u);
      assert j < i + 1;
    }
  }

  /** A segment that is not loadable changes nothing. */
  lemma SegmentSkipped(s: Snapshot, t: Table, gs: seq<Segment>, i: nat)
    requires SegmentsLoaded(s, t, gs, i) && i < |gs| && gs[i].pType != PT_LOAD
    ensures SegmentsLoaded(s, t, gs, i + 1)
  {
    hide At, PagesFor, InSegments, FreshPage;
    forall u: nat ensures InSegments(gs, i + 1, u) <==> InSegments(gs, i, u) {
      InSegmentsNext(gs, i, u);
    }
  }

  /** The new pages of a backed range: each in a block of its own, free in state q. */
  lemma BackedPage(q: Snapshot, r: Snapshot, v: nat, ps: seq<nat>, u: nat)
    requires Backed(q, r, Page, v, ps) && u < PageCount(q.t)
    ensures if v <= u < v + |ps|
            then At(q.t, u) == Free && At(r.t, u) == Committed(ps[u - v]) && ps[u - v] < |q.a.counts| && q.a.counts[ps[u - v]] == 0
            else At(r.t, u) == At(q.t, u)
  {
    hide At;
    assert At(r.t, u) == RunState(q.t, Page, v, ps, u);
    if v <= u < v + |ps| {
      assert InUnits(Page, v, |ps|, u);
      assert BlockFree(q.a.counts, ps[u - v], 1);
    }
  }

  lemma BackedApart(q: Snapshot, r: Snapshot, v: nat, ps: seq<nat>, i: nat, j: nat)
    requires Backed(q, r, Page, v, ps) && i < j < |ps|
    ensures ps[i] != ps[j]
  {
    hide At;
  }

  /** A frame that a counted table maps is in use. */
  lemma MappedInUse(q: Snapshot, u: nat, f: nat)
    requires Coherent(q) && q.t.counted && u < PageCount(q.t) && At(q.t, u) == Committed(f) && f < |q.a.counts|
    ensures q.a.counts[f] > 0
  {
    MappedReferenced(q.t, u, f);
  }

  /** Segment i has just been backed, after the first i were loaded. */
  ghost predicate SegmentBacked(s: Snapshot, q: Snapshot, r: Snapshot, gs: seq<Segment>, i: nat, ps: seq<nat>) {
    && SegmentsLoaded(s, q.t, gs, i) && i < |gs| && gs[i].pType == PT_LOAD && gs[i].pVaddr % PAGE_SIZE == 0
    && Coherent(q) && q.t.counted && Evolves(s, q)
    && var v, n := gs[i].pVaddr / PAGE_SIZE, PagesFor(gs[i].pMemsz);
       |ps| == n && (n > 0 ==> v + n <= PageCount(q.t)) && Backed(q, r, Page, v, ps)
  }

  /** What has happened to page u: nothing if it was already loaded, and a fresh frame if it is in the new segment. */
  lemma PageAfter(s: Snapshot, q: Snapshot, r: Snapshot, gs: seq<Segment>, i: nat, ps: seq<nat>, u: nat)
    requires SegmentBacked(s, q, r, gs, i, ps)
    ensures PageCount(r.t) == PageCount(q.t)
    ensures InSegments(gs, i + 1, u) <==> InSegments(gs, i, u) || InSegment(gs[i], u)
    ensures InSegments(gs, i, u) ==> !InSegment(gs[i], u) && u < PageCount(q.t) && At(r.t, u) == At(q.t, u) && FreshPage(s, r.t, u)
    ensures InSegment(gs[i], u) ==> u < PageCount(q.t) && FreshPage(s, r.t, u) && q.a.counts[At(r.t, u).frame] == 0
                                    && At(r.t, u) == Committed(ps[u - gs[i].pVaddr / PAGE_SIZE])
    ensures u < PageCount(q.t) && !InSegment(gs[i], u) ==> At(r.t, u) == At(q.t, u)
  {
    hide At, PagesFor, InSegments, Coherent;
    InSegmentsNext(gs, i, u);
    if u < PageCount(q.t) {
      BackedPage(q, r, gs[i].pVaddr / PAGE_SIZE, ps, u);
    }
  }

  lemma PagesApart(s: Snapshot, q: Snapshot, r: Snapshot, gs: seq<Segment>, i: nat, ps: seq<nat>, u: nat, w: nat)
    requires SegmentBacked(s, q, r, gs, i, ps) && u < w && InSegments(gs, i + 1, u) && InSegments(gs, i + 1, w)
    ensures u < PageCount(r.t) && w < PageCount(r.t) && At(r.t, u) != At(r.t, w)
  {
    PageAfter(s, q, r, gs, i, ps, u);
    PageAfter(s, q, r, gs, i, ps, w);
    hide At, PagesFor, InSegments, Coherent, Evolves, Backed;
    if InSegments(gs, i, u) {
      MappedInUse(q, u, At(q.t, u).frame);
    }
    if InSegments(gs, i, w) {
      MappedInUse(q, w, At(q.t, w).frame);
    }
    if InSegment(gs[i], u) && InSegment(gs[i], w) {
      var v := gs[i].pVaddr / PAGE_SIZE;
      BackedApart(q, r, v, ps, u - v, w - v);
    }
  }

  /** One more loadable segment. */
  lemma SegmentLoaded(s: Snapshot, q: Snapshot, r: Snapshot, gs: seq<Segment>, i: nat, ps: seq<nat>)
    requires SegmentBacked(s, q, r, gs, i, ps)
    ensures SegmentsLoaded(s, r.t, gs, i + 1)
  {
    hide At, PagesFor, InSegments, Coherent, Evolves, Backed, InSegment, FreshPage;
    PageAfter(s, q, r, gs, i, ps, 0);
    forall u: nat
      ensures InSegments(gs, i + 1, u) ==> FreshPage(s, r.t, u)
      ensures u < PageCount(r.t) && !InSegments(gs, i + 1, u) ==> At(r.t, u) == At(s.t, u)
      ensures InSegments(gs, i, u) ==> !InSegment(gs[i], u)
    {
      PageAfter(s, q, r, gs, i, ps, u);
    }
    forall u: nat, w: nat | u < w && InSegments(gs, i + 1, u) && InSegments(gs, i + 1, w)
      ensures u < PageCount(r.t) && w < PageCount(r.t) && At(r.t, u) != At(r.t, w)
    {
      PagesApart(s, q, r, gs, i, ps, u, w);
    }
    forall j, u: nat | 0 <= j < i && InSegment(gs[j], u) ensures !InSegment(gs[i], u) {
      InThisSegment(gs, i, j, u);
      PageAfter(s, q, r, gs, i, ps, u);
    }
  }

  /** Loading commits pages to fresh memory only. */
  lemma LoadCommitsFresh(s: Snapshot, q: Snapshot, gs: seq<Segment>, i: nat)
    requires SegmentsLoaded(s, q.t, gs, i) && q.t.counted == s.t.counted
    ensures FreshCommits(s, q)
  {
    hide At, InSegments;
    forall u: nat | u < PageCount(s.t) ensures FreshAt(s, q.t, u) {
      assert InSegments(gs, i, u) ==> FreshPage(s, q.t, u);
    }
  }

  lemma InThisSegment(gs: seq<Segment>, i: nat, j: nat, u: nat)
    requires j < i <= |gs| && InSegment(gs[j], u)
    ensures InSegments(gs, i, u)
  {
  }

  // ---------------------------------------------------------------- sections

  /** A section whose bytes the loader copies. */
  predicate Loaded(x: Section) {
    x.shType == SHT_PROGBITS && Bit1(x.shFlags)
  }

  /** The copies of the first i sections. */
  function CopySections(m: seq<Row>, t: Table, img: Image, i: nat): Option<seq<Row>>
    requires i <= |img.sections|
  {
    if i == 0 then Some(m)
    else
      match CopySections(m, t, img, i - 1)
      case None => None
      case Some(q) =>
        var x := img.sections[i - 1];
        if Loaded(x) then CopyBytes(q, t, x.shAddr, img.address + x.shOffset, x.shSize) else Some(q)
  }

  /** The copy of section x goes through. */
  ghost predicate SectionCopyable(m: seq<Row>, t: Table, img: Image, x: Section) {
    Copyable(m, t, x.shAddr, img.address + x.shOffset, x.shSize)
  }

  ghost predicate SectionWrites(t: Table, x: Section, pa: nat) {
    Written(t, x.shAddr, x.shSize, pa)
  }

  predicate SectionReads(img: Image, x: Section, pa: nat) {
    img.address + x.shOffset <= pa < img.address + x.shOffset + x.shSize
  }

  /** All copies go through, and none writes what another writes or reads. */
  ghost predicate AllCopyable(m: seq<Row>, t: Table, img: Image) {
    && (forall i :: 0 <= i < |img.sections| && Loaded(img.sections[i]) ==> SectionCopyable(m, t, img, img.sections[i]))
    && (forall i, j, pa: nat ::
          0 <= i < |img.sections| && 0 <= j < |img.sections| && i != j && Loaded(img.sections[i]) && Loaded(img.sections[j])
          && SectionWrites(t, img.sections[i], pa)
          ==> !SectionWrites(t, img.sections[j], pa) && !SectionReads(img, img.sections[j], pa))
  }

  /** Every byte of section x is at its translated address in r as it was in the image in m. */
  ghost predicate SectionInPlace(m: seq<Row>, r: seq<Row>, t: Table, img: Image, x: Section) {
    forall k: nat :: k < x.shSize ==> ByteInPlace(m, r, t, img, x, k)
  }

  ghost predicate ByteInPlace(m: seq<Row>, r: seq<Row>, t: Table, img: Image, x: Section, k: nat) {
    && Dest(t, x.shAddr, k).Success? && HasByte(r, Dest(t, x.shAddr, k).value) && HasByte(m, img.address + x.shOffset + k)
    && GetByte(r, Dest(t, x.shAddr, k).value) == GetByte(m, img.address + x.shOffset + k)
  }

  /** Bytes that none of the first i loaded sections writes are unchanged. */
  ghost predicate RestUnchanged(m: seq<Row>, r: seq<Row>, t: Table, img: Image, i: nat)
    requires i <= |img.sections|
  {
    && |r| == |m|
    && forall pa: nat :: HasByte(m, pa) && (forall j :: 0 <= j < i && Loaded(img.sections[j]) ==> !SectionWrites(t, img.sections[j], pa))
                         ==> GetByte(r, pa) == GetByte(m, pa)
  }

  lemma CopyableAnywhere(m: seq<Row>, q: seq<Row>, t: Table, dest: nat, src: nat, n: nat)
    requires Copyable(m, t, dest, src, n) && |q| == |m|
    ensures Copyable(q, t, dest, src, n)
  {
    hide HasByte, Dest;
    SameSize(m, q);
    forall k: nat | k < n ensures ByteCopyable(q, t, dest, src, k) {
      assert ByteCopyable(m, t, dest, src, k);
    }
  }

  /** After the copies of the first i sections, each of them is in place and nothing else has changed. */
  ghost predicate SectionsCopied(m: seq<Row>, x: Option<seq<Row>>, t: Table, img: Image, i: nat)
    requires i <= |img.sections|
  {
    && x.Some? && |x.value| == |m| && RestUnchanged(m, x.value, t, img, i)
    && forall j :: 0 <= j < i && Loaded(img.sections[j]) ==> SectionInPlace(m, x.value, t, img, img.sections[j])
  }

  lemma {:induction false} CopySectionsRight(m: seq<Row>, t: Table, img: Image, i: nat)
    requires AllCopyable(m, t, img) && i <= |img.sections|
    ensures SectionsCopied(m, CopySections(m, t, img, i), t, img, i)
  {
    hide Loaded, AllCopyable, RestUnchanged, SectionInPlace, CopyBytes, SectionsCopied;
    if i == 0 {
      NothingChanged(m, t, img);
    } else {
      CopySectionsRight(m, t, img, i - 1);
      var q := CopySections(m, t, img, i - 1);
      if Loaded(img.sections[i - 1]) {
        OneSectionCopied(m, q, t, img, i - 1);
      } else {
        OneSectionSkipped(m, q, t, img, i - 1);
      }
    }
  }

  lemma NothingChanged(m: seq<Row>, t: Table, img: Image)
    ensures SectionsCopied(m, Some(m), t, img, 0)
  {
  }

  lemma OneSectionSkipped(m: seq<Row>, q: Option<seq<Row>>, t: Table, img: Image, i: nat)
    requires i < |img.sections| && !Loaded(img.sections[i]) && SectionsCopied(m, q, t, img, i)
    ensures q.Some? && SectionsCopied(m, q, t, img, i + 1)
  {
    hide GetByte, Loaded, SectionWrites, SectionInPlace;
  }

  lemma OneSectionCopied(m: seq<Row>, q: Option<seq<Row>>, t: Table, img: Image, i: nat)
    requires AllCopyable(m, t, img) && i < |img.sections| && Loaded(img.sections[i]) && SectionsCopied(m, q, t, img, i)
    ensures q.Some?
    ensures var x := img.sections[i];
            SectionsCopied(m, CopyBytes(q.value, t, x.shAddr, img.address + x.shOffset, x.shSize), t, img, i + 1)
  {
    hide JustCopied, SectionInPlace, CopyBytes, AllCopyable, Loaded, RestUnchanged;
    SectionCopied(m, q.value, t, img, i);
    var x := img.sections[i];
    var r := CopyBytes(q.value, t, x.shAddr, img.address + x.shOffset, x.shSize);
    forall j | 0 <= j < i && Loaded(img.sections[j]) ensures SectionInPlace(m, r.value, t, img, img.sections[j]) {
      SectionStaysInPlace(m, q.value, r.value, t, img, i, j);
    }
  }

  /** r is q with section x copied to its place. */
  ghost predicate JustCopied(q: seq<Row>, r: seq<Row>, t: Table, img: Image, x: Section) {
    Copied(q, r, t, x.shAddr, img.address + x.shOffset, x.shSize)
  }

  lemma SectionCopied(m: seq<Row>, q: seq<Row>, t: Table, img: Image, i: nat)
    requires AllCopyable(m, t, img) && i < |img.sections| && Loaded(img.sections[i]) && RestUnchanged(m, q, t, img, i)
    ensures var x := img.sections[i];
            var r := CopyBytes(q, t, x.shAddr, img.address + x.shOffset, x.shSize);
            r.Some? && |r.value| == |m| && RestUnchanged(m, r.value, t, img, i + 1) && SectionInPlace(m, r.value, t, img, x)
            && JustCopied(q, r.value, t, img, x)
  {
    hide Copyable, Copied, SectionInPlace, CopyBytes, AllCopyable, Loaded;
    var x := img.sections[i];
    var src := img.address + x.shOffset;
    CopyableSection(m, t, img, i);
    CopyableAnywhere(m, q, t, x.shAddr, src, x.shSize);
    CopyBytesRight(q, t, x.shAddr, src, x.shSize);
    var r := CopyBytes(q, t, x.shAddr, src, x.shSize).value;
    SourceUnchanged(m, q, t, img, i);
    InPlace(m, q, r, t, img, x);
    RestStays(m, q, r, t, img, i);
  }

  lemma CopyableSection(m: seq<Row>, t: Table, img: Image, i: nat)
    requires AllCopyable(m, t, img) && i < |img.sections| && Loaded(img.sections[i])
    ensures Copyable(m, t, img.sections[i].shAddr, img.address + img.sections[i].shOffset, img.sections[i].shSize)
  {
    hide Copyable, Loaded;
    assert SectionCopyable(m, t, img, img.sections[i]);
  }

  /** The source of section i has not been written by the sections before it. */
  lemma SourceUnchanged(m: seq<Row>, q: seq<Row>, t: Table, img: Image, i: nat)
    requires AllCopyable(m, t, img) && i < |img.sections| && Loaded(img.sections[i]) && RestUnchanged(m, q, t, img, i)
    ensures forall pa: nat :: HasByte(m, pa) && SectionReads(img, img.sections[i], pa) ==> GetByte(q, pa) == GetByte(m, pa)
  {
    hide GetByte, Loaded, SectionWrites, SectionReads, HasByte, SectionCopyable;
    SameSize(m, q);
    forall pa: nat | HasByte(m, pa) && SectionReads(img, img.sections[i], pa) ensures GetByte(q, pa) == GetByte(m, pa) {
      assert forall j :: 0 <= j < i && Loaded(img.sections[j]) ==> !SectionWrites(t, img.sections[j], pa);
    }
  }

  lemma InPlace(m: seq<Row>, q: seq<Row>, r: seq<Row>, t: Table, img: Image, x: Section)
    requires JustCopied(q, r, t, img, x) && |q| == |m|
    requires forall pa: nat :: HasByte(m, pa) && SectionReads(img, x, pa) ==> GetByte(q, pa) == GetByte(m, pa)
    ensures SectionInPlace(m, r, t, img, x)
  {
    hide GetByte, Dest, HasByte;
    SameSize(m, q);
    SameSize(q, r);
    forall k: nat | k < x.shSize ensures ByteInPlace(m, r, t, img, x, k) {
      assert ByteCopied(q, r, t, x.shAddr, img.address + x.shOffset, k);
      assert SectionReads(img, x, img.address + x.shOffset + k);
    }
  }

  lemma RestStays(m: seq<Row>, q: seq<Row>, r: seq<Row>, t: Table, img: Image, i: nat)
    requires i < |img.sections| && Loaded(img.sections[i]) && RestUnchanged(m, q, t, img, i)
    requires JustCopied(q, r, t, img, img.sections[i])
    ensures RestUnchanged(m, r, t, img, i + 1)
  {
    hide GetByte, Dest, HasByte, Loaded, Copyable, Written;
    SameSize(m, q);
    SameSize(q, r);
    forall pa: nat | HasByte(m, pa) && forall j :: 0 <= j < i + 1 && Loaded(img.sections[j]) ==> !SectionWrites(t, img.sections[j], pa)
      ensures GetByte(r, pa) == GetByte(m, pa)
    {
      assert !SectionWrites(t, img.sections[i], pa);
    }
  }

  lemma SectionStaysInPlace(m: seq<Row>, q: seq<Row>, r: seq<Row>, t: Table, img: Image, i: nat, j: nat)
    requires AllCopyable(m, t, img) && j < i < |img.sections| && Loaded(img.sections[i]) && Loaded(img.sections[j])
    requires SectionInPlace(m, q, t, img, img.sections[j]) && |q| == |m|
    requires JustCopied(q, r, t, img, img.sections[i])
    ensures SectionInPlace(m, r, t, img, img.sections[j])
  {
    hide GetByte, Dest, HasByte, Loaded, Copyable, SectionReads;
    SameSize(q, r);
    var y := img.sections[j];
    forall k: nat | k < y.shSize ensures ByteInPlace(m, r, t, img, y, k) {
      assert ByteInPlace(m, q, t, img, y, k);
      var pa := Dest(t, y.shAddr, k).value;
      assert SectionWrites(t, y, pa);
      assert !SectionWrites(t, img.sections[i], pa);
    }
  }

  // ---------------------------------------------------------------- when loading is faithful

  predicate SectionHas(x: Section, va: nat) {
    x.shAddr <= va < x.shAddr + x.shSize
  }

  /** What the loader trusts its image for: the sections to be copied lie in loadable segments and do not overlap, and
      the bytes to be copied are in frames that are in use, and not as pages of the table. */
  ghost predicate ImageSound(s: Snapshot, img: Image) {
    && (forall i, va: nat ::
          0 <= i < |img.sections| && Loaded(img.sections[i]) && SectionHas(img.sections[i], va)
          ==> InSegments(img.segments, |img.segments|, va / PAGE_SIZE))
    && (forall i, j, va: nat ::
          (0 <= i < |img.sections| && 0 <= j < |img.sections| && i != j && Loaded(img.sections[i]) && Loaded(img.sections[j])
           && SectionHas(img.sections[i], va))
          ==> !SectionHas(img.sections[j], va))
    && (forall i, pa: nat ::
          0 <= i < |img.sections| && Loaded(img.sections[i]) && SectionReads(img, img.sections[i], pa) ==> InUse(s, pa))
  }

  ghost predicate InUse(s: Snapshot, pa: nat) {
    HasByte(s.m, pa) && pa / 0x1000 < |s.a.counts| && s.a.counts[pa / 0x1000] > 0 && !TableFrame(s.t, pa / 0x1000)
  }

  /** Every address of a loaded segment translates into memory that was free. */
  lemma BackedAddress(s: Snapshot, t: Table, gs: seq<Segment>, va: nat)
    requires SegmentsLoaded(s, t, gs, |gs|) && InSegments(gs, |gs|, va / PAGE_SIZE) && |s.m| == |s.a.counts|
    ensures Translate(t, va).Success?
    ensures var pa := Translate(t, va).value; HasByte(s.m, pa) && pa / 0x1000 < |s.a.counts| && s.a.counts[pa / 0x1000] == 0
  {
    hide At, InSegments;
    assert FreshPage(s, t, va / PAGE_SIZE);
    TranslateFrame(t, va);
  }

  /** Different addresses of loaded segments translate to different physical addresses. */
  lemma BackedDistinct(s: Snapshot, t: Table, gs: seq<Segment>, va: nat, wa: nat)
    requires SegmentsLoaded(s, t, gs, |gs|) && |s.m| == |s.a.counts| && va < wa
    requires InSegments(gs, |gs|, va / PAGE_SIZE) && InSegments(gs, |gs|, wa / PAGE_SIZE)
    ensures Translate(t, va) != Translate(t, wa)
  {
    hide At, InSegments, Translate;
    BackedAddress(s, t, gs, va);
    BackedAddress(s, t, gs, wa);
    TranslateFrame(t, va);
    TranslateFrame(t, wa);
    if va / PAGE_SIZE < wa / PAGE_SIZE {
      assert At(t, va / PAGE_SIZE) != At(t, wa / PAGE_SIZE);
    }
  }

  lemma WrittenFrom(t: Table, x: Section, pa: nat) returns (va: nat)
    requires SectionWrites(t, x, pa)
    ensures SectionHas(x, va) && Translate(t, va) == Success(pa)
  {
    var k: nat :| k < x.shSize && Dest(t, x.shAddr, k) == Success(pa);
    va := x.shAddr + k;
  }

  lemma SoundSection(s: Snapshot, t: Table, img: Image, i: nat)
    requires SegmentsLoaded(s, t, img.segments, |img.segments|) && |s.m| == |s.a.counts| && ImageSound(s, img)
    requires i < |img.sections| && Loaded(img.sections[i])
    ensures SectionCopyable(s.m, t, img, img.sections[i])
  {
    hide At, InSegments, Translate, SegmentsLoaded, Loaded, HasByte, TableFrame;
    var x := img.sections[i];
    var src := img.address + x.shOffset;
    forall k: nat | k < x.shSize ensures ByteCopyable(s.m, t, x.shAddr, src, k) {
      assert SectionHas(x, x.shAddr + k);
      BackedAddress(s, t, img.segments, x.shAddr + k);
      assert SectionReads(img, x, src + k) && InUse(s, src + k);
    }
    forall j: nat, k: nat | j < k < x.shSize ensures DestApart(t, x.shAddr, j, k) {
      assert SectionHas(x, x.shAddr + j) && SectionHas(x, x.shAddr + k);
      BackedDistinct(s, t, img.segments, x.shAddr + j, x.shAddr + k);
    }
    forall pa: nat | src <= pa < src + x.shSize ensures !Written(t, x.shAddr, x.shSize, pa) {
      assert SectionReads(img, x, pa) && InUse(s, pa);
      if Written(t, x.shAddr, x.shSize, pa) {
        var va := WrittenFrom(t, x, pa);
        BackedAddress(s, t, img.segments, va);
        assert false;
      }
    }
  }

  /** A sound image whose segments are loaded can be copied. */
  lemma SoundCopyable(s: Snapshot, t: Table, img: Image)
    requires SegmentsLoaded(s, t, img.segments, |img.segments|) && |s.m| == |s.a.counts| && ImageSound(s, img)
    ensures AllCopyable(s.m, t, img)
  {
    hide At, InSegments, Translate, SegmentsLoaded, Loaded, HasByte, SectionWrites, SectionCopyable, TableFrame;
    forall i | 0 <= i < |img.sections| && Loaded(img.sections[i]) ensures SectionCopyable(s.m, t, img, img.sections[i]) {
      SoundSection(s, t, img, i);
    }
    forall i, j, pa: nat | 0 <= i < |img.sections| && 0 <= j < |img.sections| && i != j && Loaded(img.sections[i])
                           && Loaded(img.sections[j]) && SectionWrites(t, img.sections[i], pa)
      ensures !SectionWrites(t, img.sections[j], pa) && !SectionReads(img, img.sections[j], pa)
    {
      SoundPair(s, t, img, i, j, pa);
    }
  }

  lemma SoundPair(s: Snapshot, t: Table, img: Image, i: nat, j: nat, pa: nat)
    requires SegmentsLoaded(s, t, img.segments, |img.segments|) && |s.m| == |s.a.counts| && ImageSound(s, img)
    requires i < |img.sections| && j < |img.sections| && i != j && Loaded(img.sections[i]) && Loaded(img.sections[j])
    requires SectionWrites(t, img.sections[i], pa)
    ensures !SectionWrites(t, img.sections[j], pa) && !SectionReads(img, img.sections[j], pa)
  {
    hide At, InSegments, Translate, SegmentsLoaded, Loaded, SectionWrites;
    var va := WrittenFrom(t, img.sections[i], pa);
    BackedAddress(s, t, img.segments, va);
    assert SectionReads(img, img.sections[j], pa) ==> InUse(s, pa);
    if SectionWrites(t, img.sections[j], pa) {
      var wa := WrittenFrom(t, img.sections[j], pa);
      assert va != wa;
      BackedDistinct(s, t, img.segments, if va < wa then va else wa, if va < wa then wa else va);
      assert false;
    }
  }

  /** Every section of the image is in place: reading it through the table gives the image's bytes. */
  ghost predicate AllInPlace(m: seq<Row>, r: seq<Row>, t: Table, img: Image) {
    forall i :: 0 <= i < |img.sections| && Loaded(img.sections[i]) ==> SectionInPlace(m, r, t, img, img.sections[i])
  }

  /** The image's own bytes are not touched while the segments are loaded. */
  lemma SourcesKept(s: Snapshot, q: Snapshot, img: Image, i: nat, pa: nat)
    requires ImageSound(s, img) && Evolves(s, q) && |s.m| == |s.a.counts|
    requires i < |img.sections| && Loaded(img.sections[i]) && SectionReads(img, img.sections[i], pa)
    ensures HasByte(s.m, pa) && HasByte(q.m, pa) && GetByte(q.m, pa) == GetByte(s.m, pa)
  {
    hide TableFrame, Loaded, InSegments, At;
    assert InUse(s, pa);
  }

  /** Loading a sound image never aborts, and leaves every byte of every section where the program expects it. */
  lemma LoadedInPlace(s: Snapshot, q: Snapshot, img: Image)
    requires SegmentsLoaded(s, q.t, img.segments, |img.segments|) && ImageSound(s, img) && Evolves(s, q) && |s.m| == |s.a.counts|
    ensures var r := CopySections(q.m, q.t, img, |img.sections|); r.Some? && AllInPlace(s.m, r.value, q.t, img)
  {
    hide SegmentsLoaded, ImageSound, AllCopyable, Evolves, SectionInPlace, Loaded, RestUnchanged, CopySections;
    SoundCopyable(s, q.t, img);
    SameLength(s, q);
    CopyableInMemory(s.m, q.m, q.t, img);
    CopySectionsRight(q.m, q.t, img, |img.sections|);
    var r := CopySections(q.m, q.t, img, |img.sections|).value;
    forall i | 0 <= i < |img.sections| && Loaded(img.sections[i]) ensures SectionInPlace(s.m, r, q.t, img, img.sections[i]) {
      PlacedFromStart(s, q, r, img, i);
    }
  }

  lemma SameLength(s: Snapshot, q: Snapshot)
    requires Evolves(s, q)
    ensures |q.m| == |s.m|
  {
  }

  lemma CopyableInMemory(m: seq<Row>, q: seq<Row>, t: Table, img: Image)
    requires AllCopyable(m, t, img) && |q| == |m|
    ensures AllCopyable(q, t, img)
  {
    hide Copyable, Loaded, SectionWrites, SectionReads;
    forall i | 0 <= i < |img.sections| && Loaded(img.sections[i]) ensures SectionCopyable(q, t, img, img.sections[i]) {
      var x := img.sections[i];
      assert SectionCopyable(m, t, img, x);
      CopyableAnywhere(m, q, t, x.shAddr, img.address + x.shOffset, x.shSize);
    }
  }

  lemma PlacedFromStart(s: Snapshot, q: Snapshot, r: seq<Row>, img: Image, i: nat)
    requires ImageSound(s, img) && Evolves(s, q) && |s.m| == |s.a.counts|
    requires i < |img.sections| && Loaded(img.sections[i]) && SectionInPlace(q.m, r, q.t, img, img.sections[i])
    ensures SectionInPlace(s.m, r, q.t, img, img.sections[i])
  {
    hide ImageSound, Evolves, Dest, GetByte, HasByte, Loaded;
    var x := img.sections[i];
    forall k: nat | k < x.shSize ensures ByteInPlace(s.m, r, q.t, img, x, k) {
      assert ByteInPlace(q.m, r, q.t, img, x, k);
      SourcesKept(s, q, img, i, img.address + x.shOffset + k);
    }
  }

  // ---------------------------------------------------------------- the rest of the machine

  lemma {:induction false} CopySectionsElsewhere(m: seq<Row>, t: Table, img: Image, i: nat, f: nat)
    requires i <= |img.sections| && CopySections(m, t, img, i).Some? && f < |m|
    requires forall j :: 0 <= j < i && Loaded(img.sections[j]) ==> Avoids(t, img.sections[j].shAddr, img.sections[j].shSize, f)
    ensures |CopySections(m, t, img, i).value| == |m| && CopySections(m, t, img, i).value[f] == m[f]
  {
    hide Loaded, Avoids, CopyBytes;
    if i > 0 {
      CopySectionsElsewhere(m, t, img, i - 1, f);
      var x := img.sections[i - 1];
      if Loaded(x) {
        CopyBytesElsewhere(CopySections(m, t, img, i - 1).value, t, x.shAddr, img.address + x.shOffset, x.shSize, f);
      }
    }
  }

  /** The sections of a sound image go to frames that were free before its segments were loaded. */
  lemma SoundAvoids(s: Snapshot, t: Table, img: Image, i: nat, f: nat)
    requires SegmentsLoaded(s, t, img.segments, |img.segments|) && |s.m| == |s.a.counts| && ImageSound(s, img)
    requires i < |img.sections| && Loaded(img.sections[i]) && f < |s.a.counts| && s.a.counts[f] > 0
    ensures Avoids(t, img.sections[i].shAddr, img.sections[i].shSize, f)
  {
    hide At, InSegments, Translate, SegmentsLoaded, Loaded, HasByte, TableFrame;
    var x := img.sections[i];
    forall k: nat | k < x.shSize && Dest(t, x.shAddr, k).Success? ensures Dest(t, x.shAddr, k).value / 0x1000 != f {
      assert SectionHas(x, x.shAddr + k);
      BackedAddress(s, t, img.segments, x.shAddr + k);
    }
  }

  /** Loading a sound image is an operation like any other: it writes only to the table's own pages and to memory that
      was free. */
  lemma LoadConfined(s: Snapshot, q: Snapshot, img: Image)
    requires SegmentsLoaded(s, q.t, img.segments, |img.segments|) && ImageSound(s, img) && Evolves(s, q) && |s.m| == |s.a.counts|
    requires CopySections(q.m, q.t, img, |img.sections|).Some?
    ensures |CopySections(q.m, q.t, img, |img.sections|).value| == |q.m|
    ensures Evolves(s, q.(m := CopySections(q.m, q.t, img, |img.sections|).value))
  {
    hide SegmentsLoaded, ImageSound, Loaded, CopySections, Avoids, At, TableFrame, Refs;
    var r := CopySections(q.m, q.t, img, |img.sections|).value;
    SoundCopyable(s, q.t, img);
    CopyableInMemory(s.m, q.m, q.t, img);
    CopySectionsRight(q.m, q.t, img, |img.sections|);
    forall f | 0 <= f < |s.m| && s.a.counts[f] > 0 ensures r[f] == q.m[f] {
      forall i | 0 <= i < |img.sections| && Loaded(img.sections[i])
        ensures Avoids(q.t, img.sections[i].shAddr, img.sections[i].shSize, f)
      {
        SoundAvoids(s, q.t, img, i, f);
      }
      CopySectionsElsewhere(q.m, q.t, img, |img.sections|, f);
    }
    assert Confined(s, q);
    EvolvesInMemory(s, q, r);
  }

  lemma EvolvesInMemory(s: Snapshot, q: Snapshot, r: seq<Row>)
    requires Evolves(s, q) && |r| == |q.m| && |s.m| == |s.a.counts|
    requires forall f :: 0 <= f < |s.m| && s.a.counts[f] > 0 ==> r[f] == q.m[f]
    ensures Evolves(s, q.(m := r))
  {
    hide At, TableFrame, Refs;
  }
}
