/** What the loader's results say, in the numbers of the ELF format and of the page tables. */
module ElfMeaning {
  import opened Bits
  import opened AddressSpace
  import opened Memory
  import opened Evolution
  import opened Translation
  import opened Bytes
  import opened ElfImage
  import opened ElfPlan

  /** The headers are right if their entries are of 32 and 40 bytes and the number of sections is not the escape value. */
  lemma HeadersInNumbers(img: Image)
    ensures HeadersOk(img) <==> img.phentsize == 32 && img.shentsize == 40 && img.shnum != 65535
  {
  }

  /** Page v belongs to a segment that starts at a page boundary if the segment is of type 1 and has a byte in the page. */
  lemma SegmentInNumbers(g: Segment, v: nat)
    requires g.pVaddr % 0x1000 == 0
    ensures InSegment(g, v) <==> g.pType == 1 && g.pVaddr < 0x1000 * v + 0x1000 && 0x1000 * v < g.pVaddr + g.pMemsz
  {
    PagesForCovers(g.pMemsz);
    var q := g.pVaddr / 0x1000;
    assert g.pVaddr == 0x1000 * q;
  }

  /** The number of pages of a segment: that of its bytes, rounded up. */
  lemma PagesInNumbers(g: Segment)
    ensures Pages(g) == if g.pType == 1 then (g.pMemsz + 4095) / 4096 else 0
  {
    PagesForCovers(g.pMemsz);
  }

  ghost predicate PageIsFree(t: Table, v: nat) {
    v < PageCount(t) && At(t, v) == Free
  }

  /** All segments fit exactly if those of type 1 are aligned to pages, and every page in which one has a byte is in the
      table, free, and without a byte of an earlier one. */
  lemma FitInNumbers(t: Table, gs: seq<Segment>)
    ensures AllFit(t, gs, |gs|) <==>
              && (forall j :: 0 <= j < |gs| && gs[j].pType == 1 ==> gs[j].pVaddr % 4096 == 0)
              && (forall j, v: nat :: 0 <= j < |gs| && InSegment(gs[j], v) ==> PageIsFree(t, v))
              && (forall i, j, v: nat :: 0 <= i < j < |gs| && InSegment(gs[j], v) ==> !InSegment(gs[i], v))
  {
    hide At, InSegment, InSegments, PagesFor;
    if AllFit(t, gs, |gs|) {
      forall j | 0 <= j < |gs| && gs[j].pType == 1 ensures gs[j].pVaddr % 4096 == 0 {
        assert SegmentFits(t, gs, j);
      }
      FitFree(t, gs);
      forall i, j, v: nat | 0 <= i < j < |gs| && InSegment(gs[j], v) ensures !InSegment(gs[i], v) {
        if InSegment(gs[i], v) {
          FitPage(t, gs, j, v);
          InThisSegment(gs, j, i, v);
        }
      }
    } else {
      var j: nat :| j < |gs| && !SegmentFits(t, gs, j);
      if gs[j].pVaddr % 4096 == 0 {
        var v: nat :| InSegment(gs[j], v) && !PageFits(t, gs, j, v);
        if InSegments(gs, j, v) {
          var i := Earlier(gs, j, v);
          OfTypeOne(gs[j], v);
          assert 0 <= i < j < |gs| && InSegment(gs[j], v) && InSegment(gs[i], v);
        } else {
          assert InSegment(gs[j], v) && !PageIsFree(t, v);
        }
      }
    }
  }

  lemma FitFree(t: Table, gs: seq<Segment>)
    requires AllFit(t, gs, |gs|)
    ensures forall j, v: nat :: 0 <= j < |gs| && InSegment(gs[j], v) ==> PageIsFree(t, v)
  {
    hide At, InSegment, PageIsFree;
    forall j, v: nat | 0 <= j < |gs| && InSegment(gs[j], v) ensures PageIsFree(t, v) {
      FitPage(t, gs, j, v);
    }
  }

  lemma FitPage(t: Table, gs: seq<Segment>, j: nat, v: nat)
    requires AllFit(t, gs, |gs|) && j < |gs| && InSegment(gs[j], v)
    ensures PageIsFree(t, v) && !InSegments(gs, j, v)
  {
    hide At, InSegment, InSegments;
    OfTypeOne(gs[j], v);
    assert SegmentFits(t, gs, j) && PageFits(t, gs, j, v);
  }

  lemma Earlier(gs: seq<Segment>, j: nat, v: nat) returns (i: nat)
    requires InSegments(gs, j, v) && j < |gs|
    ensures i < j && InSegment(gs[i], v)
  {
    i :| i < j && InSegment(gs[i], v);
  }

  lemma OfTypeOne(g: Segment, v: nat)
    requires InSegment(g, v)
    ensures g.pType == 1
  {
  }

  /** A section is copied exactly if it is of type 1 with bit 1 of its flags set, the flag of sections that take memory. */
  lemma SectionInNumbers(img: Image, x: Section, a: nat)
    ensures Loaded(x) <==> x.shType == 1 && x.shFlags / 2 % 2 == 1
    ensures SectionHas(x, a) <==> x.shAddr <= a < x.shAddr + x.shSize
    ensures SectionReads(img, x, a) <==> img.address + x.shOffset <= a < img.address + x.shOffset + x.shSize
  {
  }

  /** A byte of a section is in place if the byte of memory to which its address translates is that of the image before. */
  lemma ByteInNumbers(m: seq<Row>, r: seq<Row>, t: Table, img: Image, x: Section, k: nat)
    ensures ByteInPlace(m, r, t, img, x, k) <==>
              && Translate(t, x.shAddr + k).Success?
              && var to, from := Translate(t, x.shAddr + k).value, img.address + x.shOffset + k;
                 to / 4096 < |r| && from / 4096 < |m|
                 && LaneOf(r[to / 4096][to % 4096 / 4], to % 4) == LaneOf(m[from / 4096][from % 4096 / 4], from % 4)
  {
    hide Translate, GetByte, LaneOf;
    if Translate(t, x.shAddr + k).Success? {
      ByteIs(r, Translate(t, x.shAddr + k).value);
      ByteIs(m, img.address + x.shOffset + k);
    }
  }

  lemma ByteIs(m: seq<Row>, pa: nat)
    ensures HasByte(m, pa) <==> pa / 4096 < |m|
    ensures pa / 4096 < |m| ==> pa % 4096 / 4 < 0x400 && GetByte(m, pa) == LaneOf(m[pa / 4096][pa % 4096 / 4], pa % 4)
  {
    hide Lane, LaneOf;
    if pa / 4096 < |m| {
      LaneIs(m[pa / 4096][pa % 4096 / 4], pa % 4);
    }
  }

  /** Byte l of a word, the least significant first. */
  function LaneOf(w: word, l: nat): nat {
    w / (if l == 0 then 1 else if l == 1 then 256 else if l == 2 then 65536 else 16777216) % 256
  }

  lemma LaneIs(w: word, l: nat)
    ensures Lane(w, l) == LaneOf(w, l)
  {
  }

  /** Section i is copied and has address va. */
  predicate CopiedHas(img: Image, i: nat, va: nat) {
    i < |img.sections| && img.sections[i].shType == 1 && img.sections[i].shFlags / 2 % 2 == 1
    && img.sections[i].shAddr <= va < img.sections[i].shAddr + img.sections[i].shSize
  }

  /** Section i is copied from bytes of which pa is one. */
  predicate CopiedFrom(img: Image, i: nat, pa: nat) {
    i < |img.sections| && img.sections[i].shType == 1 && img.sections[i].shFlags / 2 % 2 == 1
    && img.address + img.sections[i].shOffset <= pa < img.address + img.sections[i].shOffset + img.sections[i].shSize
  }

  /** An image is sound exactly if each address of the sections to be copied is in a segment, no address is in two of them,
      and the bytes to be copied are in frames in use that are no pages of the table. */
  lemma SoundInNumbers(s: Snapshot, img: Image)
    ensures ImageSound(s, img) <==>
              && (forall i: nat, va: nat :: CopiedHas(img, i, va) ==> InSegments(img.segments, |img.segments|, va / 4096))
              && (forall i: nat, j: nat, va: nat :: i != j && CopiedHas(img, i, va) ==> !CopiedHas(img, j, va))
              && (forall i: nat, pa: nat :: CopiedFrom(img, i, pa) ==> HeldInUse(s, pa))
  {
    hide InSegments, InUse, HeldInUse, CopiedHas, CopiedFrom, Loaded, SectionHas, SectionReads;
    forall i: nat, a: nat | i < |img.sections|
      ensures CopiedHas(img, i, a) <==> Loaded(img.sections[i]) && SectionHas(img.sections[i], a)
    {
      CopiedIs(img, i, a);
    }
    forall i: nat, a: nat | i < |img.sections|
      ensures CopiedFrom(img, i, a) <==> Loaded(img.sections[i]) && SectionReads(img, img.sections[i], a)
    {
      CopiedIs(img, i, a);
    }
    forall a: nat ensures InUse(s, a) <==> HeldInUse(s, a) {
      InUseIs(s, a);
    }
    NotCopied(img);
  }

  /** Byte pa is in a frame that is in use, and not as a page of the table. */
  ghost predicate HeldInUse(s: Snapshot, pa: nat) {
    pa / 4096 < |s.m| && pa / 4096 < |s.a.counts| && s.a.counts[pa / 4096] > 0 && !TableFrame(s.t, pa / 4096)
  }

  lemma InUseIs(s: Snapshot, pa: nat)
    ensures InUse(s, pa) <==> HeldInUse(s, pa)
  {
    hide TableFrame;
  }

  lemma CopiedIs(img: Image, i: nat, a: nat)
    requires i < |img.sections|
    ensures CopiedHas(img, i, a) <==> Loaded(img.sections[i]) && SectionHas(img.sections[i], a)
    ensures CopiedFrom(img, i, a) <==> Loaded(img.sections[i]) && SectionReads(img, img.sections[i], a)
  {
  }

  lemma NotCopied(img: Image)
    ensures forall i: nat, a: nat :: CopiedHas(img, i, a) || CopiedFrom(img, i, a) ==> i < |img.sections|
  {
  }

  // ---------------------------------------------------------------- the rest of memory

  /** No section of type 1 with bit 1 of its flags set has the byte of memory pa. */
  ghost predicate Uncopied(t: Table, img: Image, pa: nat) {
    forall i: nat :: i < |img.sections| && img.sections[i].shType == 1 && img.sections[i].shFlags / 2 % 2 == 1
                     ==> !SectionWrites(t, img.sections[i], pa)
  }

  /** After loading an image in state s, memory m holds 0xcc in the bytes of the segments' frames that no copied section
      has, and elsewhere, but for the table's pages, what it held. */
  ghost predicate RestOfMemory(s: Snapshot, m: seq<Row>, t: Table, img: Image) {
    && |m| == |s.m|
    && forall pa: nat :: pa / 4096 < |m| && !TableFrame(t, pa / 4096) && Uncopied(t, img, pa)
                         ==> GetByte(m, pa) == if SegmentFrame(t, img.segments, |img.segments|, pa / 4096) then 0xcc else GetByte(s.m, pa)
  }

  lemma RestIsLeft(s: Snapshot, q: Snapshot, img: Image)
    requires SegmentsLoaded(s, q.t, img.segments, |img.segments|) && SegmentsFilled(s, q, img.segments, |img.segments|)
    requires ImageSound(s, img) && Evolves(s, q) && |s.m| == |s.a.counts|
    ensures var r := CopySections(q.m, q.t, img, |img.sections|); r.Some? && RestOfMemory(s, r.value, q.t, img)
  {
    hide SegmentsLoaded, ImageSound, AllCopyable, Evolves, SectionInPlace, CopySections, TableFrame, SegmentFrame, SectionWrites,
      GetByte, FilledRow;
    SoundCopyable(s, q.t, img);
    SameLength(s, q);
    CopyableInMemory(s.m, q.m, q.t, img);
    CopySectionsRight(q.m, q.t, img, |img.sections|);
    var r := CopySections(q.m, q.t, img, |img.sections|).value;
    forall pa: nat | pa / 4096 < |r| && !TableFrame(q.t, pa / 4096) && Uncopied(q.t, img, pa)
      ensures GetByte(r, pa) == if SegmentFrame(q.t, img.segments, |img.segments|, pa / 4096) then 0xcc else GetByte(s.m, pa)
    {
      assert GetByte(r, pa) == GetByte(q.m, pa);
      RowByte(s.m, q.m, pa);
    }
  }

  /** The byte of a frame that is as it was, or full of 0xcc. */
  lemma RowByte(m: seq<Row>, q: seq<Row>, pa: nat)
    requires pa / 4096 < |m| == |q|
    ensures q[pa / 4096] == m[pa / 4096] ==> GetByte(q, pa) == GetByte(m, pa)
    ensures q[pa / 4096] == FilledRow() ==> GetByte(q, pa) == 0xcc
  {
  }
}
