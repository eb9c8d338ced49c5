/** How the words of physical memory hold a page table. */
module TableMemory {
  import opened Descriptors
  import opened AddressSpace
  import opened Memory

  /** Where descriptor i of the first-level table at frame base lives. */
  function L1Slot(base: nat, i: nat): Slot {
    Slot(base + i / 0x400, i % 0x400)
  }

  ghost predicate HoldsDesc(m: seq<Row>, t: Table, i: nat)
    requires i < |t.l1|
  {
    WfDesc(t.l1[i]) && InMemory(m, L1Slot(t.base, i)) && Peek(m, L1Slot(t.base, i)) == EncDesc(t.l1[i])
  }

  ghost predicate HoldsEntries(m: seq<Row>, p: nat, es: seq<Entry>) {
    p < |m| && |es| == 0x100 && forall j :: 0 <= j < 0x100 ==> WfEntry(es[j]) && m[p][j] == EncEntry(es[j])
  }

  /** Memory m holds the words of table t. */
  ghost predicate Holds(m: seq<Row>, t: Table) {
    && |t.l1| <= 0x1000
    && (forall i :: 0 <= i < |t.l1| ==> HoldsDesc(m, t, i))
    && (forall i :: 0 <= i < |t.l1| && t.l1[i].DSecond? ==> HoldsEntries(m, t.l1[i].frame, t.l1[i].entries))
  }

  /** Memory that agrees on every frame of the table holds the table too. */
  lemma HoldsElsewhere(m: seq<Row>, r: seq<Row>, t: Table)
    requires Holds(m, t) && |r| == |m|
    requires forall p :: 0 <= p < |m| && TableFrame(t, p) ==> r[p] == m[p]
    ensures Holds(r, t)
  {
    forall i | 0 <= i < |t.l1| ensures HoldsDesc(r, t, i) {
      assert HoldsDesc(m, t, i);
      assert TableFrame(t, t.base + i / 0x400);
    }
    forall i | 0 <= i < |t.l1| && t.l1[i].DSecond? ensures HoldsEntries(r, t.l1[i].frame, t.l1[i].entries) {
      assert TableFrame(t, t.l1[i].frame);
    }
  }

  lemma SlotsDiffer(i: nat, k: nat)
    requires i != k
    ensures i / 0x400 != k / 0x400 || i % 0x400 != k % 0x400
  {
  }

  /** Storing a descriptor that is not a new second-level table. */
  lemma PokeDesc(m: seq<Row>, t: Table, i: nat, d: Desc)
    requires Holds(m, t) && Separate(t) && i < |t.l1| && WfDesc(d)
    requires d.DSecond? ==> !TableFrame(t, d.frame) && HoldsEntries(m, d.frame, d.entries)
    ensures InMemory(m, L1Slot(t.base, i))
    ensures Holds(Poke(m, L1Slot(t.base, i), EncDesc(d)), SetDesc(t, i, d))
  {
    assert HoldsDesc(m, t, i);
    var r := Poke(m, L1Slot(t.base, i), EncDesc(d));
    var u := SetDesc(t, i, d);
    forall k | 0 <= k < |u.l1| ensures HoldsDesc(r, u, k) {
      if k != i {
        assert HoldsDesc(m, t, k);
        SlotsDiffer(i, k);
      }
    }
    forall k | 0 <= k < |u.l1| && u.l1[k].DSecond? ensures HoldsEntries(r, u.l1[k].frame, u.l1[k].entries) {
      assert k == i || HoldsEntries(m, t.l1[k].frame, t.l1[k].entries);
      assert k == i ==> !(t.base <= d.frame < t.base + 4);
    }
  }

  /** Storing a second-level entry. */
  lemma PokeEntry(m: seq<Row>, t: Table, i: nat, j: nat, e: Entry)
    requires Holds(m, t) && Separate(t) && i < |t.l1| && t.l1[i].DSecond? && j < 0x100 && WfEntry(e)
    ensures InMemory(m, Slot(t.l1[i].frame, j)) && |t.l1[i].entries| == 0x100
    ensures Holds(Poke(m, Slot(t.l1[i].frame, j), EncEntry(e)), SetEntry(t, i, j, e))
  {
    assert HoldsEntries(m, t.l1[i].frame, t.l1[i].entries);
    var r := Poke(m, Slot(t.l1[i].frame, j), EncEntry(e));
    var u := SetEntry(t, i, j, e);
    forall k | 0 <= k < |u.l1| ensures HoldsDesc(r, u, k) {
      assert HoldsDesc(m, t, k);
    }
    forall k | 0 <= k < |u.l1| && u.l1[k].DSecond? ensures HoldsEntries(r, u.l1[k].frame, u.l1[k].entries) {
      assert HoldsEntries(m, t.l1[k].frame, t.l1[k].entries);
    }
  }

  // ---------------------------------------------------------------- well-formed tables in memory

  /** Memory of n frames holds the well-formed table t. */
  ghost predicate Stored(m: seq<Row>, t: Table) {
    WfCore(t, |m|) && Holds(m, t)
  }

  /** Descriptor d may stand in section i of t: a new second-level table is in a frame of its own, and a counted
      table maps nothing at the edge of memory. */
  ghost predicate Fits(t: Table, n: nat, i: nat, d: Desc) {
    && WfDesc(d)
    && (d.DSecond? ==> d.frame < n && !(t.base <= d.frame < t.base + 4)
                       && forall k :: 0 <= k < |t.l1| && k != i && t.l1[k].DSecond? ==> t.l1[k].frame != d.frame)
    && (t.counted ==> forall j :: 0 <= j < 0x100 ==> DescAt(d, i, j) != Committed(n))
  }

  lemma WfCoreSet(t: Table, n: nat, i: nat, d: Desc)
    requires WfCore(t, n) && i < |t.l1| && Fits(t, n, i, d)
    ensures WfCore(SetDesc(t, i, d), n)
  {
    var u := SetDesc(t, i, d);
    if t.counted {
      forall v | 0 <= v < PageCount(u) ensures At(u, v) != Committed(n) {
        assert At(t, v) != Committed(n);
        assert v / 0x100 == i ==> DescAt(d, i, v % 0x100) != Committed(n);
      }
    }
  }

  lemma UniformSet(l1: seq<Desc>, i: nat, d: Desc)
    requires Uniform(l1) && i < |l1| && !l1[i].DSuper? && !d.DSuper?
    ensures Uniform(l1[i := d])
  {
    forall a, b | 0 <= a < |l1| && 0 <= b < |l1| && a / 16 == b / 16 && l1[i := d][a].DSuper?
      ensures l1[i := d][b] == l1[i := d][a]
    {
      assert l1[i] == l1[a] || i / 16 != a / 16;
    }
  }

  lemma StoreDesc(m: seq<Row>, t: Table, i: nat, d: Desc)
    requires Stored(m, t) && i < |t.l1| && Fits(t, |m|, i, d)
    requires d.DSecond? ==> !TableFrame(t, d.frame) && HoldsEntries(m, d.frame, d.entries)
    ensures InMemory(m, L1Slot(t.base, i))
    ensures Stored(Poke(m, L1Slot(t.base, i), EncDesc(d)), SetDesc(t, i, d))
  {
    PokeDesc(m, t, i, d);
    WfCoreSet(t, |m|, i, d);
  }

  lemma StoreEntry(m: seq<Row>, t: Table, i: nat, j: nat, e: Entry)
    requires Stored(m, t) && i < |t.l1| && t.l1[i].DSecond? && j < 0x100 && WfEntry(e)
    requires t.counted ==> e != EPage(|m|)
    ensures InMemory(m, Slot(t.l1[i].frame, j)) && |t.l1[i].entries| == 0x100
    ensures Stored(Poke(m, Slot(t.l1[i].frame, j), EncEntry(e)), SetEntry(t, i, j, e))
  {
    PokeEntry(m, t, i, j, e);
    var d := t.l1[i].(entries := t.l1[i].entries[j := e]);
    if t.counted {
      forall k | 0 <= k < 0x100 ensures DescAt(d, i, k) != Committed(|m|) {
        AtPage(t, i, k);
      }
    }
    WfCoreSet(t, |m|, i, d);
  }
}
