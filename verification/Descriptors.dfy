/** The descriptors of the two-level page table, decoded, and the words that hold them. */
module Descriptors {
  import opened Bits

  const PAGE_SIZE := 0x1000
  const SECTION_SIZE := 0x100000
  const SUPERSECTION_SIZE := 0x1000000
  const SECOND_LEVEL_ENTRIES := 0x100
  const FIRST_LEVEL_SUPERVISOR_ENTRIES := 0x1000
  const FIRST_LEVEL_USER_ENTRIES := 0x800

  /** An entry of a second-level table; frames are physical addresses divided by PAGE_SIZE. */
  datatype Entry = EFree | EReserved | EPage(frame: nat)

  /** A first-level descriptor; one that points to a second-level table carries that table's contents. */
  datatype Desc =
    | DFree
    | DReserved
    | DSecond(frame: nat, entries: seq<Entry>)
    | DSection(frame: nat)
    | DSuper(frame: nat)

  predicate WfEntry(e: Entry) {
    e.EPage? ==> e.frame < 0x100000
  }

  predicate WfDesc(d: Desc) {
    match d
    case DFree => true
    case DReserved => true
    case DSecond(p, es) => p < 0x100000 && |es| == SECOND_LEVEL_ENTRIES && forall j :: 0 <= j < |es| ==> WfEntry(es[j])
    case DSection(p) => p < 0x100000 && p % 0x100 == 0
    case DSuper(p) => p < 0x100000 && p % 0x1000 == 0
  }

  /** The word the source stores for a second-level entry. */
  function EncEntry(e: Entry): word
    requires WfEntry(e)
  {
    match e
    case EFree => 0
    case EReserved => 4
    case EPage(p) => p * 0x1000 + 2
  }

  /** The word the source stores for a first-level descriptor. */
  function EncDesc(d: Desc): word
    requires WfDesc(d)
  {
    match d
    case DFree => 0
    case DReserved => 4
    case DSecond(p, _) => p * 0x1000 + 1
    case DSection(p) => p * 0x1000 + 2
    case DSuper(p) => p * 0x1000 + 0x40002
  }

  /** Every test and field extraction the source applies to a second-level entry tells its kind and frame. */
  lemma EntryFields(e: Entry)
    requires WfEntry(e)
    ensures var w := EncEntry(e);
            && (Low3(w) == 0 <==> e.EFree?)
            && (Low3(w) == 4 <==> e.EReserved?)
            && (Bit1(w) <==> e.EPage?)
            && (e.EPage? ==> Base12(w) == e.frame * PAGE_SIZE)
  {
    if e.EPage? {
      TagFields(e.frame, 2);
    }
  }

  /** The fields of a page-aligned address with a tag in its two lowest bits. */
  lemma TagFields(p: nat, tag: nat)
    requires tag < 4
    ensures var w := p * 0x1000 + tag;
            && Low2(w) == tag && Low3(w) == tag && (Bit1(w) <==> tag >= 2)
            && Base10(w) == Base12(w) == p * 0x1000
  {
    LowTag(p * 0x200, tag);
    HighTag(p, tag);
  }

  lemma LowTag(q: nat, tag: nat)
    requires tag < 4
    ensures (8 * q + tag) % 8 == tag && (8 * q + tag) % 4 == tag && (8 * q + tag) / 2 % 2 == tag / 2
  {
    DivMod(8, q, tag);
    DivMod(4, 2 * q, tag);
    DivMod(2, 4 * q + tag / 2, tag % 2);
    DivMod(2, 2 * q, tag / 2);
  }

  lemma HighTag(p: nat, tag: nat)
    requires tag < 4
    ensures (p * 0x1000 + tag) % 0x1000 == tag && (p * 0x1000 + tag) % 0x400 == tag
  {
    DivMod(0x1000, p, tag);
    DivMod(0x400, 4 * p, tag);
  }

  /** Every test and field extraction the source applies to a first-level descriptor tells its kind and frame;
      the fourth kind, 0b11, does not occur. */
  lemma DescFields(d: Desc)
    requires WfDesc(d)
    ensures var w := EncDesc(d);
            && (Low3(w) == 0 <==> d.DFree?)
            && (Low3(w) == 4 <==> d.DReserved?)
            && (Low2(w) == 1 <==> d.DSecond?)
            && (Low2(w) == 2 <==> d.DSection? || d.DSuper?)
            && Low2(w) != 3
            && (d.DSecond? ==> Base10(w) == d.frame * PAGE_SIZE)
            && (d.DSection? ==> !Bit18(w) && Base20(w) == d.frame * PAGE_SIZE)
            && (d.DSuper? ==> Bit18(w) && Base24(w) == d.frame * PAGE_SIZE)
  {
    match d
    case DFree =>
    case DReserved =>
    case DSecond(p, _) => TagFields(p, 1);
    case DSection(p) => SectionFields(p);
    case DSuper(p) => SuperFields(p);
  }

  lemma SectionFields(p: nat)
    requires p % 0x100 == 0
    ensures var w := p * 0x1000 + 2;
            Low2(w) == 2 && Low3(w) == 2 && !Bit18(w) && Base20(w) == p * PAGE_SIZE
  {
    TagFields(p, 2);
    var q := p / 0x100;
    assert p * 0x1000 + 2 == 0x100000 * q + 2 == 0x40000 * (4 * q) + 2;
    DivMod(0x100000, q, 2);
    DivMod(0x40000, 4 * q, 2);
    DivMod(2, 2 * q, 0);
  }

  lemma SuperFields(p: nat)
    requires p % 0x1000 == 0
    ensures var w := p * 0x1000 + 0x40002;
            Low2(w) == 2 && Low3(w) == 2 && Bit18(w) && Base24(w) == p * PAGE_SIZE
  {
    TagFields(p + 0x40, 2);
    var q := p / 0x1000;
    assert p * 0x1000 + 0x40002 == 0x1000000 * q + 0x40002 == 0x40000 * (0x40 * q + 1) + 2;
    DivMod(0x1000000, q, 0x40002);
    DivMod(0x40000, 0x40 * q + 1, 2);
    DivMod(2, 0x20 * q, 1);
  }

  /** The words are the source's `|` of an aligned address and a tag. */
  lemma WordsAreOrs(p: nat)
    requires p < 0x100000
    ensures EncEntry(EPage(p)) == Or(p * PAGE_SIZE, 0x2)
    ensures forall es :: WfDesc(DSecond(p, es)) ==> EncDesc(DSecond(p, es)) == Or(p * PAGE_SIZE, 0x1)
    ensures p % 0x100 == 0 ==> EncDesc(DSection(p)) == Or(p * PAGE_SIZE, 0x2)
    ensures p % 0x1000 == 0 ==> EncDesc(DSuper(p)) == Or(p * PAGE_SIZE, 0x40002)
  {
    OnesValues();
    LongShifts(p);
    OrDisjoint(p, 0x2, 12);
    OrDisjoint(p, 0x1, 12);
    if p % 0x1000 == 0 {
      LongShifts(p / 0x1000);
      OrDisjoint(p / 0x1000, 0x40002, 24);
      OnesShl(24);
      LongShifts(1);
    }
  }

  /** The words themselves: 0 for free, 4 for reserved, and otherwise the address with the tag of its kind. */
  lemma WordsInNumbers(d: Desc, e: Entry)
    requires WfDesc(d) && WfEntry(e)
    ensures d.DFree? ==> EncDesc(d) == 0
    ensures d.DReserved? ==> EncDesc(d) == 4
    ensures d.DSecond? ==> EncDesc(d) == 4096 * d.frame + 1 && |d.entries| == 256
    ensures d.DSection? ==> EncDesc(d) == 4096 * d.frame + 2
    ensures d.DSuper? ==> EncDesc(d) == 4096 * d.frame + 262146
    ensures EncEntry(e) == match e case EFree => 0 case EReserved => 4 case EPage(p) => 4096 * p + 2
  {
  }
}
