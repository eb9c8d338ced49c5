/** The references a page table holds on physical frames: its own table pages and, when the table is
    reference-counted, every page, section and sixteenth of a supersection that it maps. */
module References {
  import opened Bits
  import opened Descriptors
  import opened AddressSpace

  predicate InRun(f: nat, p: nat, n: nat) {
    p <= f < p + n
  }

  function One(b: bool): nat {
    if b then 1 else 0
  }

  /** References on frame f held through descriptor d of section i. */
  function DescRefs(d: Desc, i: nat, counted: bool, f: nat): nat {
    match d
    case DFree => 0
    case DReserved => 0
    case DSecond(p, es) => One(p == f) + if counted then multiset(es)[EPage(f)] else 0
    case DSection(p) => One(counted && InRun(f, p, 0x100))
    case DSuper(p) => One(counted && InRun(f, p + 0x100 * (i % 16), 0x100))
  }

  /** References held through the first n descriptors. */
  function L1Refs(l1: seq<Desc>, counted: bool, f: nat, n: nat): nat
    requires n <= |l1|
  {
    if n == 0 then 0 else L1Refs(l1, counted, f, n - 1) + DescRefs(l1[n - 1], n - 1, counted, f)
  }

  /** All references of a table on frame f. */
  function Refs(t: Table, f: nat): nat {
    One(InRun(f, t.base, 4)) + L1Refs(t.l1, t.counted, f, |t.l1|)
  }

  /** Every reference of t is covered by the count of its frame. */
  ghost predicate Covered(counts: seq<nat>, t: Table) {
    forall f :: 0 <= f < |counts| ==> Refs(t, f) <= counts[f]
  }

  /** The references of an empty table are its four table pages. */
  lemma {:induction false} L1RefsEmpty(l1: seq<Desc>, counted: bool, f: nat, n: nat)
    requires n <= |l1| && forall i :: 0 <= i < n ==> l1[i].DFree?
    ensures L1Refs(l1, counted, f, n) == 0
  {
    if n != 0 {
      L1RefsEmpty(l1, counted, f, n - 1);
    }
  }

  /** Replacing one descriptor changes the references by the difference of the two descriptors'. */
  lemma {:induction false} L1RefsSet(l1: seq<Desc>, i: nat, d: Desc, counted: bool, f: nat, n: nat)
    requires i < |l1| && n <= |l1|
    ensures L1Refs(l1[i := d], counted, f, n) ==
            L1Refs(l1, counted, f, n) + if i < n then DescRefs(d, i, counted, f) - DescRefs(l1[i], i, counted, f) else 0
  {
    if n != 0 {
      L1RefsSet(l1, i, d, counted, f, n - 1);
    }
  }

  lemma RefsSet(t: Table, i: nat, d: Desc, f: nat)
    requires i < |t.l1|
    ensures Refs(SetDesc(t, i, d), f) == Refs(t, f) + DescRefs(d, i, t.counted, f) - DescRefs(t.l1[i], i, t.counted, f)
  {
    L1RefsSet(t.l1, i, d, t.counted, f, |t.l1|);
  }

  /** Every single descriptor's references are among the table's. */
  lemma {:induction false} L1RefsAtLeast(l1: seq<Desc>, i: nat, counted: bool, f: nat, n: nat)
    requires i < n <= |l1|
    ensures DescRefs(l1[i], i, counted, f) <= L1Refs(l1, counted, f, n)
  {
    if i < n - 1 {
      L1RefsAtLeast(l1, i, counted, f, n - 1);
    }
  }

  /** So are those of two different descriptors together. */
  lemma {:induction false} L1RefsAtLeastTwo(l1: seq<Desc>, i: nat, k: nat, counted: bool, f: nat, n: nat)
    requires i < k < n <= |l1|
    ensures DescRefs(l1[i], i, counted, f) + DescRefs(l1[k], k, counted, f) <= L1Refs(l1, counted, f, n)
  {
    if k < n - 1 {
      L1RefsAtLeastTwo(l1, i, k, counted, f, n - 1);
    } else {
      L1RefsAtLeast(l1, i, counted, f, n - 1);
    }
  }

  /** A table frame is referenced. */
  lemma TableFrameReferenced(t: Table, p: nat)
    requires TableFrame(t, p)
    ensures Refs(t, p) >= 1
  {
    if !InRun(p, t.base, 4) {
      var i :| 0 <= i < |t.l1| && t.l1[i].DSecond? && t.l1[i].frame == p;
      L1RefsAtLeast(t.l1, i, t.counted, p, |t.l1|);
    }
  }

  /** So is a frame that a counted table maps. */
  lemma MappedReferenced(t: Table, v: nat, f: nat)
    requires t.counted && v < PageCount(t) && At(t, v) == Committed(f)
    ensures DescRefs(t.l1[v / 0x100], v / 0x100, true, f) >= 1 + One(t.l1[v / 0x100].DSecond? && t.l1[v / 0x100].frame == f)
    ensures Refs(t, f) >= 1
  {
    var i := v / 0x100;
    var d := t.l1[i];
    if d.DSecond? {
      assert d.entries[v % 0x100] in multiset(d.entries);
    }
    L1RefsAtLeast(t.l1, i, true, f, |t.l1|);
  }

  lemma TwiceInSeq(es: seq<Entry>, j: nat, k: nat)
    requires j < k < |es| && es[j] == es[k]
    ensures multiset(es)[es[j]] >= 2
  {
    assert es == es[..k] + es[k..];
    assert es[..k][j] in multiset(es[..k]);
    assert es[k..][0] in multiset(es[k..]);
  }

  /** Two pages of a counted table that translate to one frame hold two references on it. */
  lemma MappedTwice(t: Table, u: nat, v: nat, f: nat)
    requires t.counted && u < v < PageCount(t) && At(t, u) == Committed(f) == At(t, v)
    ensures Refs(t, f) >= 2
  {
    MappedReferenced(t, u, f);
    MappedReferenced(t, v, f);
    var i, k := u / 0x100, v / 0x100;
    if i < k {
      L1RefsAtLeastTwo(t.l1, i, k, true, f, |t.l1|);
    } else {
      var es := t.l1[i].entries;
      TwiceInSeq(es, u % 0x100, v % 0x100);
      L1RefsAtLeast(t.l1, i, true, f, |t.l1|);
    }
  }

  /** A table page of a counted table that the table also maps is referenced twice. */
  lemma MappedTableFrame(t: Table, v: nat, p: nat)
    requires t.counted && v < PageCount(t) && At(t, v) == Committed(p) && TableFrame(t, p)
    ensures Refs(t, p) >= 2
  {
    MappedReferenced(t, v, p);
    var k := v / 0x100;
    L1RefsAtLeast(t.l1, k, true, p, |t.l1|);
    if !InRun(p, t.base, 4) {
      var i :| 0 <= i < |t.l1| && t.l1[i].DSecond? && t.l1[i].frame == p;
      if i < k {
        L1RefsAtLeastTwo(t.l1, i, k, true, p, |t.l1|);
      } else if k < i {
        L1RefsAtLeastTwo(t.l1, k, i, true, p, |t.l1|);
      }
    }
  }

  // ---------------------------------------------------------------- references taken by a commit

  lemma {:induction false} SuperRefs(t: Table, i: nat, n: nat, p: nat, f: nat)
    requires i % 16 == 0 && n <= 16 && AllReserved(t.l1, i, n)
    decreases n
    ensures Refs(t.(l1 := FillDescs(t.l1, i, n, DSuper(p))), f) == Refs(t, f) + One(t.counted && InRun(f, p, 0x100 * n))
  {
    hide Refs;
    if n == 0 {
      assert FillDescs(t.l1, i, 0, DSuper(p)) == t.l1;
    } else {
      var r := t.(l1 := FillDescs(t.l1, i, n - 1, DSuper(p)));
      SuperRefs(t, i, n - 1, p, f);
      SuperStep(t.l1, i, n, p);
      RefsSet(r, i + n - 1, DSuper(p), f);
      SliceRefs(i, n - 1, t.counted, p, f);
      assert DescRefs(r.l1[i + n - 1], i + n - 1, t.counted, f) == 0;
    }
  }

  lemma SuperStep(l1: seq<Desc>, i: nat, n: nat, p: nat)
    requires 0 < n && i + n <= |l1|
    ensures FillDescs(l1, i, n, DSuper(p)) == FillDescs(l1, i, n - 1, DSuper(p))[i + n - 1 := DSuper(p)]
  {
  }

  lemma SliceRefs(i: nat, k: nat, counted: bool, p: nat, f: nat)
    requires i % 16 == 0 && k < 16
    ensures One(counted && InRun(f, p, 0x100 * k)) + DescRefs(DSuper(p), i + k, counted, f) ==
            One(counted && InRun(f, p, 0x100 * k + 0x100))
  {
    DivMod(16, i / 16, k);
  }

  /** Committing one unit takes one reference on each of its frames, if the table counts them. */
  lemma CommitRefs(t: Table, g: Granularity, v: nat, p: nat, f: nat)
    requires WfDescs(t) && |t.l1| % 16 == 0 && Committable(t, g, v)
    ensures Refs(Commit(t, g, v, p), f) == Refs(t, f) + One(t.counted && InRun(f, UnitBase(g, p), Span(g, 1)))
  {
    match g
    case Page =>
      CommittablePage(t, v);
      var i, j := v / 0x100, v % 0x100;
      var es := t.l1[i].entries;
      RefsSet(t, i, t.l1[i].(entries := es[j := EPage(p)]), f);
    case Section =>
      CommittableSection(t, v);
      RefsSet(t, v / 0x100, DSection(UnitBase(g, p)), f);
    case Supersection =>
      CommittableSuper(t, v);
      UnitBaseFacts(g, v);
      DivMod(16, v / 0x1000, 0);
      SuperRefs(t, v / 0x1000 * 16, 16, UnitBase(g, p), f);
  }

  /** The references a run of commits takes on frame f. */
  function RunRefs(g: Granularity, ps: seq<nat>, f: nat): nat {
    if ps == [] then 0
    else var k := |ps| - 1; RunRefs(g, ps[..k], f) + One(InRun(f, UnitBase(g, ps[k]), Span(g, 1)))
  }

  lemma {:induction false} CommitRunRefs(t: Table, g: Granularity, v: nat, ps: seq<nat>, f: nat)
    requires WfDescs(t) && |t.l1| % 16 == 0
    requires forall k :: 0 <= k < |ps| ==> ps[k] < 0x100000 && Committable(t, g, v + Span(g, k))
    ensures Refs(CommitRun(t, g, v, ps), f) == Refs(t, f) + if t.counted then RunRefs(g, ps, f) else 0
  {
    hide RunEffect, Committable, WfDescs, Commit, Refs;
    if ps != [] {
      var k := |ps| - 1;
      CommitRunRefs(t, g, v, ps[..k], f);
      CommitRunAt(t, g, v, ps[..k]);
      StillCommittable(t, g, v, ps[..k], k);
      CommitRefs(CommitRun(t, g, v, ps[..k]), g, v + Span(g, k), ps[k], f);
    }
  }
}
