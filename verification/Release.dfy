/** Giving up references: what each step of destroying a table takes off the counts. */
module Release {
  import opened Descriptors
  import opened AddressSpace
  import opened References
  import opened Frames

  /** The counts d cover the references of descriptor e of section i, and frame 0 has one more. */
  ghost predicate Covers(d: seq<count>, e: Desc, i: nat, counted: bool) {
    forall f :: 0 <= f < |d| ==> DescRefs(e, i, counted, f) + One(f == 0) <= d[f]
  }

  /** d is c less the references of descriptor e of section i. */
  ghost predicate LessDesc(c: seq<count>, d: seq<count>, e: Desc, i: nat, counted: bool) {
    |d| == |c| && forall f :: 0 <= f < |c| ==> d[f] == c[f] - DescRefs(e, i, counted, f)
  }

  /** d is c less the references of the first n descriptors of t. */
  ghost predicate LessFirst(c: seq<count>, d: seq<count>, t: Table, n: nat)
    requires n <= |t.l1|
  {
    |d| == |c| && forall f :: 0 <= f < |c| ==> d[f] == c[f] - L1Refs(t.l1, t.counted, f, n)
  }

  /** d is c less all references of t. */
  ghost predicate LessTable(c: seq<count>, d: seq<count>, t: Table) {
    |d| == |c| && forall f :: 0 <= f < |c| ==> d[f] == c[f] - Refs(t, f)
  }

  /** Every reference of t is counted, and frame 0 has one that is not t's. */
  ghost predicate Releasable(c: seq<count>, t: Table) {
    |c| > 0 && Covered(c, t) && Refs(t, 0) < c[0]
  }

  /** d is c less the references of the first j entries of a second-level table. */
  ghost predicate LessEntries(c: seq<count>, d: seq<count>, es: seq<Entry>, j: nat, counted: bool)
    requires j <= |es|
  {
    |d| == |c| && forall f :: 0 <= f < |c| ==> d[f] == c[f] - if counted then multiset(es[..j])[EPage(f)] else 0
  }

  lemma PrefixCount(es: seq<Entry>, j: nat, f: nat)
    requires j < |es|
    ensures multiset(es[..j + 1])[EPage(f)] == multiset(es[..j])[EPage(f)] + One(es[j] == EPage(f))
    ensures multiset(es[..j + 1])[EPage(f)] <= multiset(es)[EPage(f)]
  {
    assert es[..j + 1] == es[..j] + [es[j]];
    assert es == es[..j + 1] + es[j + 1..];
  }

  /** The next entry's reference is still counted. */
  lemma EntryCovered(c: seq<count>, d: seq<count>, e: Desc, i: nat, counted: bool, j: nat, p: nat)
    requires e.DSecond? && j < |e.entries| && counted && e.entries[j] == EPage(p) && p < |c|
    requires Covers(c, e, i, counted) && LessEntries(c, d, e.entries, j, counted)
    ensures d[p] > One(p == 0)
  {
    PrefixCount(e.entries, j, p);
    assert DescRefs(e, i, counted, p) + One(p == 0) <= c[p];
  }

  lemma EntryReleased(c: seq<count>, d: seq<count>, r: seq<count>, es: seq<Entry>, j: nat, counted: bool)
    requires j < |es| && LessEntries(c, d, es, j, counted)
    requires |r| == |d| && forall f :: 0 <= f < |d| ==> r[f] == d[f] - One(counted && es[j] == EPage(f))
    ensures LessEntries(c, r, es, j + 1, counted)
  {
    forall f | 0 <= f < |c| ensures r[f] == c[f] - if counted then multiset(es[..j + 1])[EPage(f)] else 0 {
      PrefixCount(es, j, f);
    }
  }

  lemma TableFrameCovered(c: seq<count>, d: seq<count>, e: Desc, i: nat, counted: bool)
    requires e.DSecond? && e.frame < |c| && Covers(c, e, i, counted) && LessEntries(c, d, e.entries, |e.entries|, counted)
    ensures d[e.frame] > One(e.frame == 0)
  {
    assert e.entries[..|e.entries|] == e.entries;
    assert DescRefs(e, i, counted, e.frame) + One(e.frame == 0) <= c[e.frame];
  }

  lemma SecondReleased(c: seq<count>, d: seq<count>, r: seq<count>, e: Desc, i: nat, counted: bool)
    requires e.DSecond? && LessEntries(c, d, e.entries, |e.entries|, counted)
    requires |r| == |d| && forall f :: 0 <= f < |d| ==> r[f] == d[f] - One(f == e.frame)
    ensures LessDesc(c, r, e, i, counted)
  {
    assert e.entries[..|e.entries|] == e.entries;
  }

  /** The first of the frames that an unsplit section holds references on. */
  function RunStart(e: Desc, i: nat): nat
    requires e.DSection? || e.DSuper?
  {
    if e.DSection? then e.frame else e.frame + 0x100 * (i % 16)
  }

  lemma RunCovered(c: seq<count>, e: Desc, i: nat)
    requires (e.DSection? || e.DSuper?) && Covers(c, e, i, true)
    ensures forall f :: RunStart(e, i) <= f < RunStart(e, i) + 0x100 && f < |c| ==> c[f] > One(f == 0)
  {
    forall f | RunStart(e, i) <= f < RunStart(e, i) + 0x100 && f < |c| ensures c[f] > One(f == 0) {
      assert DescRefs(e, i, true, f) + One(f == 0) <= c[f];
    }
  }

  lemma RunReleased(c: seq<count>, e: Desc, i: nat)
    requires (e.DSection? || e.DSuper?) && Covers(c, e, i, true)
    requires forall f :: 0 <= f < |c| && RunStart(e, i) <= f < RunStart(e, i) + 0x100 ==> c[f] > 0
    ensures LessDesc(c, Dropped(c, RunStart(e, i), 0x100), e, i, true)
  {
  }

  lemma NothingReleased(c: seq<count>, e: Desc, i: nat, counted: bool)
    requires e.DFree? || e.DReserved? || (!counted && !e.DSecond?)
    ensures LessDesc(c, c, e, i, counted)
  {
  }

  /** No frame that section i of a counted table maps is the one at the edge of memory. */
  lemma ClearOfEdge(t: Table, n: nat, i: nat)
    requires WfCore(t, n) && t.counted && i < |t.l1|
    ensures t.l1[i].DSecond? ==> forall j :: 0 <= j < |t.l1[i].entries| ==> t.l1[i].entries[j] != EPage(n)
    ensures t.l1[i].DSection? || t.l1[i].DSuper? ==> !(RunStart(t.l1[i], i) <= n < RunStart(t.l1[i], i) + 0x100)
  {
    var d := t.l1[i];
    if d.DSecond? {
      forall j | 0 <= j < |d.entries| ensures d.entries[j] != EPage(n) {
        AtPage(t, i, j);
      }
    } else if d.DSection? || d.DSuper? {
      if RunStart(d, i) <= n < RunStart(d, i) + 0x100 {
        AtPage(t, i, n - RunStart(d, i));
      }
    }
  }

  /** Before section i is released, the counts still cover it. */
  lemma NextCovered(c: seq<count>, d: seq<count>, t: Table, i: nat)
    requires Releasable(c, t) && i < |t.l1| && LessFirst(c, d, t, i)
    ensures Covers(d, t.l1[i], i, t.counted)
  {
    forall f | 0 <= f < |d| ensures DescRefs(t.l1[i], i, t.counted, f) + One(f == 0) <= d[f] {
      L1RefsMonotone(t.l1, t.counted, f, i + 1, |t.l1|);
      assert Refs(t, f) <= c[f];
    }
  }

  lemma {:induction false} L1RefsMonotone(l1: seq<Desc>, counted: bool, f: nat, k: nat, n: nat)
    requires k <= n <= |l1|
    ensures L1Refs(l1, counted, f, k) <= L1Refs(l1, counted, f, n)
  {
    if k < n {
      L1RefsMonotone(l1, counted, f, k, n - 1);
    }
  }

  lemma NextReleased(c: seq<count>, d: seq<count>, r: seq<count>, t: Table, i: nat)
    requires i < |t.l1| && LessFirst(c, d, t, i) && LessDesc(d, r, t.l1[i], i, t.counted)
    ensures LessFirst(c, r, t, i + 1)
  {
    hide DescRefs;
  }

  lemma NoneReleased(c: seq<count>, t: Table)
    ensures LessFirst(c, c, t, 0)
  {
  }

  /** What remains at the end is the reference on each of the four first-level frames. */
  lemma BaseCovered(c: seq<count>, d: seq<count>, t: Table)
    requires Releasable(c, t) && LessFirst(c, d, t, |t.l1|)
    ensures forall f :: 0 <= f < |d| && t.base <= f < t.base + 4 ==> d[f] > 0
    ensures t.base + 4 <= |d| && t.base > 0 ==> LessTable(c, Dropped(d, t.base, 4), t)
  {
    forall f | 0 <= f < |d| && t.base <= f < t.base + 4 ensures d[f] > 0 {
      assert Refs(t, f) <= c[f];
    }
  }
}
