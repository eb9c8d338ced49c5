/** The two-level page table. Its words live in physical memory, in frames taken from the page allocator. */
module PageTables {
  import opened Bits
  import opened Outcomes
  import opened Descriptors
  import opened AddressSpace
  import opened References
  import opened Frames
  import opened Memory
  import opened TableMemory
  import opened Evolution
  import opened Reservation
  import opened Allocation
  import opened Leasing
  import opened Mapping
  import opened Release
  import opened Translation
  import opened PageAllocator

  class PageTable {
    const alloc: PageAlloc
    /** The frame at which the first-level table starts. */
    const base: nat
    const numEntries: nat
    const counted: bool
    /** The table that memory holds. */
    ghost var tab: Table

    ghost function Snap(): Snapshot
      reads this, alloc, alloc.counts, alloc.mem
    {
      Snapshot(alloc.View(), alloc.mem[..], tab)
    }

    ghost predicate Shaped()
      reads this
    {
      tab.base == base && tab.counted == counted && |tab.l1| == numEntries
      && (numEntries == FIRST_LEVEL_SUPERVISOR_ENTRIES || numEntries == FIRST_LEVEL_USER_ENTRIES)
    }

    ghost predicate Valid()
      reads this, alloc, alloc.counts, alloc.mem
    {
      alloc.Valid() && Aligned(alloc.numPages, 4) && Shaped() && Coherent(Snap())
    }

    constructor Around(alloc: PageAlloc, base: nat, numEntries: nat, counted: bool, ghost tab: Table)
      ensures this.alloc == alloc && this.base == base && this.numEntries == numEntries && this.counted == counted
      ensures this.tab == tab
    {
      this.alloc, this.base, this.numEntries, this.counted := alloc, base, numEntries, counted;
      this.tab := tab;
    }

    // -------------------------------------------------------------- words

    method Load(s: Slot) returns (w: word)
      requires InMemory(alloc.mem[..], s)
      ensures w == Peek(alloc.mem[..], s)
    {
      w := alloc.mem[s.frame][s.index];
    }

    method Store(s: Slot, w: word)
      requires InMemory(alloc.mem[..], s)
      modifies alloc.mem
      ensures alloc.mem[..] == Poke(old(alloc.mem[..]), s, w)
    {
      alloc.mem[s.frame] := alloc.mem[s.frame][s.index := w];
    }

    /** first_level_table[i] */
    method LoadDesc(i: nat) returns (w: word)
      requires Shaped() && Holds(alloc.mem[..], tab) && i < numEntries
      ensures WfDesc(tab.l1[i]) && w == EncDesc(tab.l1[i])
    {
      assert HoldsDesc(alloc.mem[..], tab, i);
      w := Load(L1Slot(base, i));
    }

    /** second_level_table[j], for the table of section i */
    method LoadEntry(frame: nat, j: nat, ghost i: nat) returns (w: word)
      requires Shaped() && Holds(alloc.mem[..], tab) && i < numEntries && j < 0x100
      requires tab.l1[i].DSecond? && tab.l1[i].frame == frame
      ensures |tab.l1[i].entries| == 0x100 && WfEntry(tab.l1[i].entries[j]) && w == EncEntry(tab.l1[i].entries[j])
    {
      assert HoldsEntries(alloc.mem[..], frame, tab.l1[i].entries);
      w := Load(Slot(frame, j));
    }

    // -------------------------------------------------------------- marking

    /** Reserves entries j .. j + n of the second-level table at the given frame. */
    method MarkEntries(frame: nat, j: nat, n: nat, ghost i: nat)
      requires Valid() && i < numEntries && tab.l1[i].DSecond? && tab.l1[i].frame == frame
      requires |tab.l1[i].entries| == 0x100 && FreePages(tab.l1[i].entries, j, n)
      modifies this`tab, alloc.mem
      ensures Valid() && tab == MarkPages(old(tab), i, j, n) && alloc.View() == old(alloc.View())
      ensures Evolves(old(Snap()), Snap()) && OnlyFreshFrames(old(Snap()), Snap()) && Quiet(old(Snap()), Snap())
    {
      hide Coherent, Evolves, OnlyFreshFrames, Quiet, MarkPages;
      ghost var s, t := Snap(), tab;
      EvolvesRefl(s);
      MarkNothing(t, i, j);
      for k := 0 to n
        invariant Valid() && tab == MarkPages(t, i, j, k) && alloc.View() == s.a
        invariant Evolves(s, Snap()) && OnlyFreshFrames(s, Snap()) && Quiet(s, Snap())
      {
        ghost var q := Snap();
        MarkPagesStep(t, i, j, k);
        ReserveEntryStep(q, i, j + k);
        Store(Slot(frame, j + k), 4);
        tab := SetEntry(tab, i, j + k, EReserved);
        EvolvesTrans(s, q, Snap());
      }
    }

    /** Reserves sections i .. i + n. */
    method MarkDescs(i: nat, n: nat)
      requires Valid() && FreeWindow(tab.l1, i, n)
      modifies this`tab, alloc.mem
      ensures Valid() && tab == MarkSections(old(tab), i, n) && alloc.View() == old(alloc.View())
      ensures Evolves(old(Snap()), Snap()) && OnlyFreshFrames(old(Snap()), Snap()) && Quiet(old(Snap()), Snap())
    {
      hide Coherent, Evolves, OnlyFreshFrames, Quiet, MarkSections;
      ghost var s, t := Snap(), tab;
      EvolvesRefl(s);
      MarkNothing(t, i, 0);
      for k := 0 to n
        invariant Valid() && tab == MarkSections(t, i, k) && alloc.View() == s.a
        invariant Evolves(s, Snap()) && OnlyFreshFrames(s, Snap()) && Quiet(s, Snap())
      {
        ghost var q := Snap();
        MarkSectionsStep(t, i, k);
        ReserveDescStep(q, i + k);
        Store(L1Slot(base, i + k), 4);
        tab := SetDesc(tab, i + k, DReserved);
        EvolvesTrans(s, q, Snap());
      }
    }

    // -------------------------------------------------------------- second-level tables

    /** A fresh frame with 256 free entries. */
    method CreateSecondLevelTable() returns (r: Outcome<nat>, ghost g: Grant)
      requires Valid()
      modifies alloc, alloc.counts, alloc.mem
      ensures r.Panicked? <==> AllocSpec(old(alloc.View()), 1).None?
      ensures r.Panicked? ==> r.code == OutOfMemory
      ensures r.Done? ==> alloc.Valid() && AllocSpec(old(alloc.View()), 1) == Some(g) && alloc.View() == g.after
      ensures r.Done? ==> r.value == g.frame * PAGE_SIZE && g.frame < alloc.numPages && HoldsEntries(alloc.mem[..], g.frame, EmptyEntries())
      ensures r.Done? ==> forall p :: 0 <= p < alloc.numPages && p != g.frame ==> alloc.mem[p] == old(alloc.mem[p])
      ensures r.Done? ==> forall j :: 0x100 <= j < 0x400 ==> alloc.mem[g.frame][j] == 0xcccccccc
    {
      hide Coherent, AllocSpec, FilledRow;
      ghost var frame;
      r, frame := alloc.Alloc(1);
      if r.Panicked? {
        return r, Grant(alloc.View(), 0);
      }
      g := Grant(alloc.View(), frame);
      for i := 0 to SECOND_LEVEL_ENTRIES
        invariant alloc.Valid() && alloc.View() == g.after
        invariant forall j :: 0 <= j < i ==> alloc.mem[frame][j] == 0
        invariant forall j :: 0x100 <= j < 0x400 ==> alloc.mem[frame][j] == 0xcccccccc
        invariant forall p :: 0 <= p < alloc.numPages && p != frame ==> alloc.mem[p] == old(alloc.mem[p])
      {
        Store(Slot(r.value / PAGE_SIZE, i), 0);
      }
    }

    /** Turns free section i into a second-level table of free pages, and returns that table's frame. */
    method Split(i: nat) returns (r: Outcome<nat>)
      requires Valid() && i < numEntries && tab.l1[i].DFree?
      modifies this`tab, alloc, alloc.counts, alloc.mem
      ensures r.Panicked? <==> AllocSpec(old(alloc.View()), 1).None?
      ensures r.Panicked? ==> r.code == OutOfMemory
      ensures r.Done? ==> Valid() && tab == SetDesc(old(tab), i, SplitDesc(r.value))
      ensures r.Done? ==> AllocSpec(old(alloc.View()), 1) == Some(Grant(alloc.View(), r.value))
      ensures r.Done? ==> Evolves(old(Snap()), Snap()) && OnlyFreshFrames(old(Snap()), Snap()) && Quiet(old(Snap()), Snap())
    {
      hide Coherent, AllocSpec, Evolves, OnlyFreshFrames, Quiet, HoldsEntries, EmptyEntries;
      ghost var s := Snap();
      var x, g := CreateSecondLevelTable();
      if x.Panicked? {
        return x;
      }
      SplitStep(s, i, g, alloc.mem[..]);
      Store(L1Slot(base, i), x.value + 1);
      tab := SetDesc(tab, i, SplitDesc(g.frame));
      r := Done(x.value / PAGE_SIZE);
    }

    // -------------------------------------------------------------- looking up descriptors

    method GetPageDescriptor(va: nat) returns (r: Result<Slot>)
      requires Shaped() && Holds(alloc.mem[..], tab)
      ensures var i := va / SECTION_SIZE;
              r == if i < numEntries && tab.l1[i].DSecond? then Success(Slot(tab.l1[i].frame, va / PAGE_SIZE % 0x100)) else Failure
    {
      hide Holds, EncDesc, WfDesc;
      var i := va / SECTION_SIZE;
      if i >= numEntries {
        return Failure;
      }
      var w := LoadDesc(i);
      DescFields(tab.l1[i]);
      if Low2(w) == 1 {
        return Success(Slot(Base10(w) / PAGE_SIZE, va / PAGE_SIZE % 0x100));
      }
      return Failure;
    }

    method GetSectionDescriptor(va: nat, allowSecondLevel: bool) returns (r: Result<Slot>)
      requires Shaped() && Holds(alloc.mem[..], tab)
      ensures var i := va / SECTION_SIZE;
              r == if i < numEntries && (allowSecondLevel || !tab.l1[i].DSecond?) then Success(L1Slot(base, i)) else Failure
    {
      hide Holds, EncDesc, WfDesc;
      var i := va / SECTION_SIZE;
      if i >= numEntries {
        return Failure;
      }
      var w := LoadDesc(i);
      DescFields(tab.l1[i]);
      if Low2(w) == 1 && !allowSecondLevel {
        return Failure;
      }
      return Success(L1Slot(base, i));
    }

    /** *descriptor, for a descriptor of section i */
    method ReadDesc(s: Slot, ghost i: nat) returns (w: word)
      requires Shaped() && Holds(alloc.mem[..], tab) && i < numEntries && s == L1Slot(base, i)
      ensures WfDesc(tab.l1[i]) && w == EncDesc(tab.l1[i])
    {
      assert HoldsDesc(alloc.mem[..], tab, i);
      w := Load(s);
    }

    // -------------------------------------------------------------- reserving pages at an address

    /** Whether n pages from the given address on, all of one section, can be reserved. */
    method CheckSectionPartiallyReservable(address: nat, n: nat) returns (ok: bool)
      requires Valid() && InSection(address / PAGE_SIZE, n)
      ensures ok <==> AllFree(tab, address / PAGE_SIZE, n)
    {
      hide Holds, EncDesc, EncEntry, AllFree, Separate, Uniform, Covered, NoEdge;
      ghost var v := address / PAGE_SIZE;
      AddressParts(address);
      SectionPagesFree(tab, v, n);
      var section := GetSectionDescriptor(address, true);
      if section.Failure? {
        return false;
      }
      ghost var i := v / 0x100;
      var w := ReadDesc(section.value, i);
      DescFields(tab.l1[i]);
      if Low3(w) == 0 {
        return true;
      }
      if Low2(w) == 1 {
        for k := 0 to n
          invariant FreePages(tab.l1[i].entries, v % 0x100, k)
        {
          PageOfSection(v, n, k);
          AddressStep(address, k);
          var page := GetPageDescriptor(address + k * PAGE_SIZE);
          if page.Failure? {
            return false;
          }
          var e := LoadEntry(page.value.frame, page.value.index, i);
          EntryFields(tab.l1[i].entries[v % 0x100 + k]);
          if Low3(e) != 0 {
            return false;
          }
        }
        return true;
      }
      return false;
    }

    /** The frame of section i's second-level table, which is created if the section is free. */
    method TableOfSection(i: nat) returns (r: Outcome<nat>)
      requires Valid() && i < numEntries && (tab.l1[i].DFree? || tab.l1[i].DSecond?)
      modifies this`tab, alloc, alloc.counts, alloc.mem
      ensures r.Panicked? <==> SplitSpec(old(alloc.View()), old(tab).l1[i]).None?
      ensures r.Panicked? ==> r.code == OutOfMemory
      ensures r.Done? ==> SplitSpec(old(alloc.View()), old(tab).l1[i]) == Some(alloc.View())
      ensures r.Done? ==> Valid() && Opened(old(tab), tab, i) && tab.l1[i].frame == r.value
      ensures r.Done? ==> i < |tab.l1| && TableGranted(old(alloc.View()), old(tab).l1[i], alloc.View(), tab.l1[i])
      ensures r.Done? ==> Evolves(old(Snap()), Snap()) && OnlyFreshFrames(old(Snap()), Snap()) && Quiet(old(Snap()), Snap())
    {
      hide Coherent, Evolves, OnlyFreshFrames, Quiet, AllocSpec, SplitDesc;
      EvolvesRefl(Snap());
      var w := LoadStoredDesc(i);
      if Low3(w) == 0 {
        r := Split(i);
        if r.Done? {
          SplitIsFree(r.value);
        }
      } else {
        r := Done(Base10(w) / PAGE_SIZE);
      }
    }

    /** Reserves entries j .. j + n of section i's second-level table. */
    method ReserveInSection(i: nat, j: nat, n: nat) returns (r: Outcome<()>)
      requires Valid() && i < numEntries && SectionReady(tab.l1[i], j, n)
      modifies this`tab, alloc, alloc.counts, alloc.mem
      ensures r.Panicked? <==> SplitSpec(old(alloc.View()), old(tab).l1[i]).None?
      ensures r.Panicked? ==> r.code == OutOfMemory
      ensures r.Done? ==> SplitSpec(old(alloc.View()), old(tab).l1[i]) == Some(alloc.View())
      ensures r.Done? ==> Valid() && ReservedPages(old(tab), tab, 0x100 * i + j, n)
      ensures r.Done? ==> i < |tab.l1| && TableGranted(old(alloc.View()), old(tab).l1[i], alloc.View(), tab.l1[i])
      ensures r.Done? ==> Evolves(old(Snap()), Snap()) && OnlyFreshFrames(old(Snap()), Snap()) && Quiet(old(Snap()), Snap())
    {
      hide Coherent, Evolves, OnlyFreshFrames, Quiet, ReservedPages, SplitSpec, MarkPages, Opened, FreePages, Aligned;
      ghost var s := Snap();
      var frame :- TableOfSection(i);
      ghost var q := Snap();
      OpenedPages(s.t, q.t, i, j, n);
      MarkEntries(frame, j, n, i);
      MarkedFrame(q.t, i, j, n);
      EvolvesTrans(s, q, Snap());
      r := Done(());
    }

    /** Reserves n pages of section i, from page j of it on, which have been checked to be free. */
    method ReservePagesFromSection(address: nat, n: nat, ghost i: nat, ghost j: nat) returns (r: Outcome<()>)
      requires Valid() && address == PAGE_SIZE * (0x100 * i + j) && i < numEntries && j < 0x100 && SectionReady(tab.l1[i], j, n)
      modifies this`tab, alloc, alloc.counts, alloc.mem
      ensures r.Panicked? <==> SplitSpec(old(alloc.View()), old(tab).l1[i]).None?
      ensures r.Panicked? ==> r.code == OutOfMemory
      ensures r.Done? ==> SplitSpec(old(alloc.View()), old(tab).l1[i]) == Some(alloc.View())
      ensures r.Done? ==> Valid() && ReservedPages(old(tab), tab, 0x100 * i + j, n)
      ensures r.Done? ==> i < |tab.l1| && TableGranted(old(alloc.View()), old(tab).l1[i], alloc.View(), tab.l1[i])
      ensures r.Done? ==> Evolves(old(Snap()), Snap()) && OnlyFreshFrames(old(Snap()), Snap()) && Quiet(old(Snap()), Snap())
    {
      hide Coherent, Evolves, OnlyFreshFrames, Quiet, ReservedPages, SplitSpec, SectionReady, Aligned, WfAlloc, NonZero;
      var section, startIndex := address / SECTION_SIZE, address / PAGE_SIZE % 0x100;
      assert section == i && startIndex == j by {
        AddressIsPage(0x100 * i + j);
        DivMod(0x100, i, j);
      }
      r := ReserveInSection(section, startIndex, n);
    }

    /** Whether all n pages from the given page-aligned address on can be reserved. */
    method CheckPages(base: nat, n: nat, ghost v: nat) returns (ok: bool)
      requires Valid() && base == PAGE_SIZE * v
      ensures ok <==> AllFree(tab, v, n)
    {
      hide Coherent, AllFree;
      AllFreeNone(tab, v);
      var unchecked: nat := n;
      var checkBase := base;
      while unchecked > 0
        invariant unchecked <= n && AllFree(tab, v, n - unchecked)
        invariant unchecked > 0 ==> checkBase == PAGE_SIZE * (v + (n - unchecked))
      {
        ghost var u := v + (n - unchecked);
        RestOfSection(u, 1);
        AddressIsPage(u);
        var rest := (Base20(checkBase) + SECTION_SIZE - checkBase) / PAGE_SIZE;
        var k := if unchecked < rest then unchecked else rest;
        var free := CheckSectionPartiallyReservable(checkBase, k);
        AllFreeSplit(tab, v, n - unchecked, n);
        AllFreeSplit(tab, u, k, unchecked);
        AllFreeSplit(tab, v, n - unchecked, n - unchecked + k);
        if !free {
          return false;
        }
        unchecked := unchecked - k;
        checkBase := Base20(checkBase) + SECTION_SIZE;
      }
      return true;
    }

    /** The first k of n checked pages from v on have been reserved since the state s. */
    ghost predicate MarkedSince(s: Snapshot, v: nat, k: nat, n: nat)
      reads this, alloc, alloc.counts, alloc.mem
    {
      && Valid() && PartReserved(s.a, s.t, alloc.View(), tab, v, k, n)
      && Evolves(s, Snap()) && OnlyFreshFrames(s, Snap()) && Quiet(s, Snap())
    }

    /** Reserves the k checked pages that lie in one more section. */
    method MarkNextSection(address: nat, k: nat, ghost s: Snapshot, ghost v: nat, ghost done: nat, ghost n: nat) returns (r: Outcome<()>)
      requires MarkedSince(s, v, done, n) && v + n <= PageCount(s.t) && address == PAGE_SIZE * (v + done)
      requires 0 < k <= n - done && InSection(v + done, k) && (k < n - done ==> (v + done + k) % 0x100 == 0)
      modifies this`tab, alloc, alloc.counts, alloc.mem
      ensures r.Panicked? ==> r.code == OutOfMemory && AllocRun(s.a, 1, SplitsNeeded(s.t, v, n)).None?
      ensures r.Done? ==> MarkedSince(s, v, done + k, n)
    {
      hide Coherent, Evolves, OnlyFreshFrames, Quiet, PartReserved, AllFree, ReservedPages, SplitSpec, AllocRun, SplitsNeeded, Aligned,
        SectionReady, WfAlloc, NonZero;
      ghost var q, u := Snap(), v + done;
      CoherentDescs(q);
      PartReservedNext(s.a, s.t, q.a, q.t, v, done, n, k);
      r := ReservePagesFromSection(address, k, u / 0x100, u % 0x100);
      if r.Panicked? {
        PartReservedFails(s.a, s.t, q.a, q.t, v, done, n, k);
        return;
      }
      PartReservedStep(s.a, s.t, q.a, q.t, v, done, n, k, alloc.View(), tab);
      EvolvesTrans(s, q, Snap());
    }

    /** Reserves n pages that have been checked to be free, section by section. */
    method MarkCheckedPages(base: nat, n: nat, ghost v: nat) returns (r: Outcome<()>)
      requires Valid() && base == PAGE_SIZE * v && AllFree(tab, v, n) && v + n <= PageCount(tab)
      modifies this`tab, alloc, alloc.counts, alloc.mem
      ensures r.Panicked? <==> AllocRun(old(alloc.View()), 1, SplitsNeeded(old(tab), v, n)).None?
      ensures r.Panicked? ==> r.code == OutOfMemory
      ensures r.Done? ==> MarkedSince(old(Snap()), v, n, n)
    {
      hide Coherent, Evolves, OnlyFreshFrames, Quiet, PartReserved, AllFree, AllocRun, SplitsNeeded, Aligned, WfAlloc, NonZero;
      ghost var s := Snap();
      CoherentShape(s);
      EvolvesRefl(s);
      PartReservedNothing(s.a, s.t, v, n);
      var unreserved: nat := n;
      var reservationBase := base;
      while unreserved > 0
        invariant unreserved <= n && MarkedSince(s, v, n - unreserved, n)
        invariant unreserved > 0 ==> reservationBase == PAGE_SIZE * (v + (n - unreserved))
      {
        RestOfSection(v + (n - unreserved), 1);
        AddressIsPage(v + (n - unreserved));
        var rest := (Base20(reservationBase) + SECTION_SIZE - reservationBase) / PAGE_SIZE;
        var k := if unreserved < rest then unreserved else rest;
        var x := MarkNextSection(reservationBase, k, s, v, n - unreserved, n);
        if x.Panicked? {
          return x;
        }
        unreserved := unreserved - k;
        reservationBase := Base20(reservationBase) + SECTION_SIZE;
      }
      PartReservedMeans(s.a, s.t, alloc.View(), tab, v, n);
      return Done(());
    }

    /** reserve_pages(base, num_pages): all or nothing. */
    method ReservePagesAt(address: nat, n: nat) returns (r: Outcome<Result<nat>>)
      requires Valid() && address / PAGE_SIZE + n <= 0x100000
      modifies this`tab, alloc, alloc.counts, alloc.mem
      ensures var v := address / PAGE_SIZE;
              if !AllFree(old(tab), v, n) then r == Done(Failure) && Snap() == old(Snap())
              else PlacedPages(old(alloc.View()), old(tab), r, alloc.View(), tab, v, n)
      ensures r.Done? ==> Valid() && Evolves(old(Snap()), Snap()) && OnlyFreshFrames(old(Snap()), Snap()) && Quiet(old(Snap()), Snap())
    {
      hide Coherent, Evolves, OnlyFreshFrames, Quiet, PartReserved, AllFree, ReservedPages, AllocRun;
      EvolvesRefl(Snap());
      ghost var s, v := Snap(), address / PAGE_SIZE;
      var base := Base12(address);
      var ok := CheckPages(base, n, v);
      if !ok {
        return Done(Failure);
      }
      if n == 0 {
        return Done(Success(base));
      }
      AllFreeBound(tab, v, n);
      var x := MarkCheckedPages(base, n, v);
      if x.Panicked? {
        return Panicked(x.code);
      }
      PartReservedMeans(s.a, s.t, alloc.View(), tab, v, n);
      return Done(Success(base));
    }

    method LoadStoredDesc(i: nat) returns (w: word)
      requires Valid() && i < numEntries
      ensures var d := tab.l1[i];
              && (Low3(w) == 0 <==> d.DFree?) && (Low3(w) == 4 <==> d.DReserved?)
              && (Low2(w) == 1 <==> d.DSecond?) && (Low2(w) == 2 <==> d.DSection? || d.DSuper?)
              && (d.DSecond? ==> |d.entries| == 0x100 && Base10(w) == d.frame * PAGE_SIZE)
              && (d.DSection? ==> !Bit18(w) && Base20(w) == d.frame * PAGE_SIZE)
              && (d.DSuper? ==> Bit18(w) && Base24(w) == d.frame * PAGE_SIZE)
    {
      w := LoadDesc(i);
      DescFields(tab.l1[i]);
    }

    // -------------------------------------------------------------- reserving sections at an address

    /** Whether the n sections from the given section-aligned address on can be reserved. */
    method CheckSections(base: nat, n: nat, ghost i: nat) returns (ok: bool)
      requires Valid() && base == SECTION_SIZE * i
      ensures ok <==> n == 0 || FreeWindow(tab.l1, i, n)
    {
      hide Coherent, EncDesc, Aligned, WfAlloc, NonZero;
      for k := 0 to n
        invariant k == 0 || FreeWindow(tab.l1, i, k)
      {
        CoherentHolds(Snap());
        SectionAddress(i, k);
        var section := GetSectionDescriptor(base + k * SECTION_SIZE, false);
        if section.Failure? {
          return false;
        }
        var w := ReadDesc(section.value, i + k);
        DescFields(tab.l1[i + k]);
        if Low3(w) != 0 {
          return false;
        }
      }
      return true;
    }

    /** The common part of reserve_sections(base, n) and reserve_supersections(base, n): all or nothing. */
    method PlaceSections(base: nat, n: nat, ghost i: nat) returns (r: Result<nat>)
      requires Valid() && base == SECTION_SIZE * i
      modifies this`tab, alloc.mem
      ensures Valid() && PlacedSections(old(tab), r, tab, i, n, base)
      ensures alloc.View() == old(alloc.View()) && (r.Failure? ==> Snap() == old(Snap()))
      ensures Evolves(old(Snap()), Snap()) && OnlyFreshFrames(old(Snap()), Snap()) && Quiet(old(Snap()), Snap())
    {
      hide Coherent, Evolves, OnlyFreshFrames, Quiet, FreeWindow, Aligned, WfAlloc, NonZero;
      EvolvesRefl(Snap());
      var ok := CheckSections(base, n, i);
      if !ok {
        return Failure;
      }
      if n > 0 {
        SectionAddress(i, 0);
        WindowFits(tab.l1, i, n);
        MarkDescs(base / SECTION_SIZE, n);
      }
      return Success(base);
    }

    method ReserveSectionsAt(address: nat, n: nat) returns (r: Result<nat>)
      requires Valid() && address / SECTION_SIZE + n <= 0x1000
      modifies this`tab, alloc.mem
      ensures Valid()
      ensures var i := address / SECTION_SIZE; PlacedSections(old(tab), r, tab, i, n, SECTION_SIZE * i)
      ensures alloc.View() == old(alloc.View()) && (r.Failure? ==> Snap() == old(Snap()))
      ensures Evolves(old(Snap()), Snap()) && OnlyFreshFrames(old(Snap()), Snap()) && Quiet(old(Snap()), Snap())
    {
      hide Coherent, Evolves, OnlyFreshFrames, Quiet, PlacedSections, Aligned, WfAlloc, NonZero;
      r := PlaceSections(Base20(address), n, address / SECTION_SIZE);
    }

    method ReserveSupersectionsAt(address: nat, n: nat) returns (r: Result<nat>)
      requires Valid() && address / SUPERSECTION_SIZE + n <= 0x100
      modifies this`tab, alloc.mem
      ensures Valid()
      ensures var i := 16 * (address / SUPERSECTION_SIZE); PlacedSections(old(tab), r, tab, i, 16 * n, SECTION_SIZE * i)
      ensures alloc.View() == old(alloc.View()) && (r.Failure? ==> Snap() == old(Snap()))
      ensures Evolves(old(Snap()), Snap()) && OnlyFreshFrames(old(Snap()), Snap()) && Quiet(old(Snap()), Snap())
    {
      hide Coherent, Evolves, OnlyFreshFrames, Quiet, PlacedSections, Aligned, WfAlloc, NonZero;
      r := PlaceSections(Base24(address), 16 * n, 16 * (address / SUPERSECTION_SIZE));
    }

    // -------------------------------------------------------------- reserving sections anywhere

    /** reserve_sections(n): the lowest window of n free sections. */
    method ReserveSections(n: nat) returns (r: Result<nat>)
      requires Valid() && n > 0
      modifies this`tab, alloc.mem
      ensures Valid() && FirstFitSections(old(tab), r, tab, n)
      ensures alloc.View() == old(alloc.View()) && (r.Failure? ==> Snap() == old(Snap()))
      ensures Evolves(old(Snap()), Snap()) && OnlyFreshFrames(old(Snap()), Snap()) && Quiet(old(Snap()), Snap())
    {
      hide Coherent, Evolves, OnlyFreshFrames, Quiet, Aligned, WfAlloc, NonZero, MarkSections, FreeWindow, Tail, Run;
      EvolvesRefl(Snap());
      ghost var flags := SectionFlags(tab.l1);
      TailStart(flags, n);
      SectionRuns(tab.l1, n);
      var contiguous := 0;
      for i := 0 to numEntries
        invariant Snap() == old(Snap()) && Tail(flags, i, contiguous, n)
      {
        var w := LoadStoredDesc(i);
        TailStep(flags, i, contiguous, n);
        if Low3(w) == 0 {
          contiguous := contiguous + 1;
        } else {
          contiguous := 0;
        }
        if contiguous == n {
          var startIndex := i - n + 1;
          MarkDescs(startIndex, n);
          return Success(startIndex * SECTION_SIZE);
        }
      }
      TailEnd(flags, contiguous, n);
      return Failure;
    }

    /** Whether the sixteen sections from i on are all free. */
    method IsGroupFree(i: nat) returns (free: bool)
      requires Valid() && i + 16 <= numEntries
      ensures free <==> FreeWindow(tab.l1, i, 16)
    {
      hide Coherent, Aligned, WfAlloc, NonZero;
      free := true;
      for j := 0 to 16
        invariant free <==> forall k :: i <= k < i + j ==> tab.l1[k].DFree?
      {
        var w := LoadStoredDesc(i + j);
        free := free && Low3(w) == 0;
      }
    }

    /** reserve_supersections(n): the lowest aligned window of n free groups of sixteen sections. */
    method ReserveSupersections(n: nat) returns (r: Result<nat>)
      requires Valid() && n > 0
      modifies this`tab, alloc.mem
      ensures Valid() && FirstFitSupersections(old(tab), r, tab, n)
      ensures alloc.View() == old(alloc.View()) && (r.Failure? ==> Snap() == old(Snap()))
      ensures Evolves(old(Snap()), Snap()) && OnlyFreshFrames(old(Snap()), Snap()) && Quiet(old(Snap()), Snap())
    {
      hide Coherent, Evolves, OnlyFreshFrames, Quiet, Aligned, WfAlloc, NonZero, MarkSections, FreeWindow, Tail, Run;
      EvolvesRefl(Snap());
      ghost var flags := GroupFlags(tab.l1);
      TailStart(flags, n);
      GroupRuns(tab.l1, n);
      var contiguous := 0;
      var i := 0;
      while i < numEntries
        invariant 0 <= i <= numEntries && i % 16 == 0
        invariant Snap() == old(Snap()) && Tail(flags, i / 16, contiguous, n)
      {
        var free := IsGroupFree(i);
        TailStep(flags, i / 16, contiguous, n);
        if free {
          contiguous := contiguous + 1;
        } else {
          contiguous := 0;
        }
        if contiguous == n {
          ghost var q := i / 16 + 1 - n;
          var startIndex := i - 16 * (n - 1);
          GroupFits(tab.l1, q, n);
          MarkDescs(startIndex, 16 * n);
          return Success(startIndex * SECTION_SIZE);
        }
        i := i + 16;
      }
      TailEnd(flags, contiguous, n);
      return Failure;
    }

    // -------------------------------------------------------------- reserving pages anywhere

    /** The lowest window of n free pages in the second-level table of section i, if there is one. */
    method FindInTable(frame: nat, n: nat, ghost i: nat) returns (r: Result<nat>)
      requires Valid() && i < numEntries && tab.l1[i].DSecond? && tab.l1[i].frame == frame && n > 0
      ensures r.Failure? ==> NoPageWindow(tab, i, n)
      ensures r.Success? ==> PageWindow(tab, i, r.value, n) && forall k: nat :: k < r.value ==> !PageWindow(tab, i, k, n)
    {
      hide Holds, EncEntry, Aligned, WfAlloc, NonZero, Separate, Uniform, Covered, NoEdge, Tail, Run, FreePages;
      ghost var es := tab.l1[i].entries;
      ghost var flags := EntryFlags(es);
      TailStart(flags, n);
      EntryRuns(es, n);
      var contiguous := 0;
      for j := 0 to SECOND_LEVEL_ENTRIES
        invariant Tail(flags, j, contiguous, n)
      {
        var e := LoadEntry(frame, j, i);
        EntryFields(es[j]);
        TailStep(flags, j, contiguous, n);
        if Low3(e) == 0 {
          contiguous := contiguous + 1;
        } else {
          contiguous := 0;
        }
        if contiguous == n {
          return Success(j - n + 1);
        }
      }
      TailEnd(flags, contiguous, n);
      return Failure;
    }

    /** Reserves n pages in an existing second-level table, first fit. */
    method ReserveInTables(n: nat) returns (r: Result<nat>, ghost i: nat, ghost s: nat)
      requires Valid() && 0 < n <= 0x100
      modifies this`tab, alloc.mem
      ensures Valid() && alloc.View() == old(alloc.View())
      ensures r.Failure? ==> Snap() == old(Snap()) && forall k: nat :: NoPageWindow(tab, k, n)
      ensures r.Success? ==> FirstWindow(old(tab), i, s, n) && r.value == i * SECTION_SIZE + s * PAGE_SIZE
                             && tab == MarkPages(old(tab), i, s, n)
      ensures Evolves(old(Snap()), Snap()) && OnlyFreshFrames(old(Snap()), Snap()) && Quiet(old(Snap()), Snap())
    {
      hide Coherent, Evolves, OnlyFreshFrames, Quiet, Aligned, WfAlloc, NonZero, MarkPages;
      i, s := 0, 0;
      EvolvesRefl(Snap());
      for first := 0 to numEntries
        invariant Snap() == old(Snap()) && forall k: nat :: k < first ==> NoPageWindow(tab, k, n)
      {
        var w := LoadStoredDesc(first);
        if Low2(w) == 1 {
          var frame := Base10(w) / PAGE_SIZE;
          var found := FindInTable(frame, n, first);
          if found.Success? {
            var startIndex := found.value;
            i, s := first, startIndex;
            MarkEntries(frame, startIndex, n, first);
            return Success(first * SECTION_SIZE + startIndex * PAGE_SIZE), i, s;
          }
        }
      }
      r := Failure;
    }

    /** The first free section. */
    method FindFreeSection() returns (r: Result<nat>)
      requires Valid()
      ensures r.Failure? ==> forall k: nat :: !FreeWindow(tab.l1, k, 1)
      ensures r.Success? ==> FreeWindow(tab.l1, r.value, 1) && forall k: nat :: k < r.value ==> !FreeWindow(tab.l1, k, 1)
    {
      hide Coherent, Aligned, WfAlloc, NonZero;
      for i := 0 to numEntries
        invariant forall k: nat :: k < i ==> !FreeWindow(tab.l1, k, 1)
      {
        var w := LoadStoredDesc(i);
        if Low3(w) == 0 {
          return Success(i);
        }
        assert !tab.l1[i].DFree?;
      }
      return Failure;
    }

    /** Reserves the first n pages of the first free section, which is split. */
    method ReserveInNewTable(n: nat) returns (r: Outcome<Result<nat>>)
      requires Valid() && 0 < n <= 0x100
      modifies this`tab, alloc, alloc.counts, alloc.mem
      ensures NewTableFit(old(alloc.View()), old(tab), r, alloc.View(), tab, n)
      ensures r == Done(Failure) ==> Snap() == old(Snap())
      ensures r.Done? ==> Valid() && Evolves(old(Snap()), Snap()) && OnlyFreshFrames(old(Snap()), Snap()) && Quiet(old(Snap()), Snap())
    {
      hide Coherent, Evolves, OnlyFreshFrames, Quiet, Aligned, WfAlloc, NonZero, SplitSpec, ReservedPages, FreeWindow;
      EvolvesRefl(Snap());
      var found := FindFreeSection();
      if found.Failure? {
        return Done(Failure);
      }
      var i := found.value;
      WindowIsFree(tab.l1, i, n);
      var x := ReserveInSection(i, 0, n);
      r := if x.Panicked? then Panicked(x.code) else Done(Success(i * SECTION_SIZE));
      assert NewTableAt(old(alloc.View()), old(tab), r, alloc.View(), tab, n, i);
    }

    /** reserve_pages(n): first fit, first in the existing second-level tables and then in a new one. */
    method ReservePages(n: nat) returns (r: Outcome<Result<nat>>)
      requires Valid() && 0 < n <= 0x100
      modifies this`tab, alloc, alloc.counts, alloc.mem
      ensures FirstFitPages(old(alloc.View()), old(tab), r, alloc.View(), tab, n)
      ensures r == Done(Failure) ==> Snap() == old(Snap())
      ensures r.Done? ==> Valid() && Evolves(old(Snap()), Snap()) && OnlyFreshFrames(old(Snap()), Snap()) && Quiet(old(Snap()), Snap())
    {
      hide Coherent, Evolves, OnlyFreshFrames, Quiet, Aligned, WfAlloc, NonZero, NewTableFit, PageWindow, MarkPages;
      var x, i, s := ReserveInTables(n);
      if x.Success? {
        assert !NoPageWindow(old(tab), i, n);
        return Done(x);
      }
      r := ReserveInNewTable(n);
    }

    // -------------------------------------------------------------- committing

    ghost predicate TableStored()
      reads this, alloc.mem
    {
      Shaped() && alloc.mem.Length == alloc.numPages && Stored(alloc.mem[..], tab)
    }

    /** commit_page: maps a reserved page of a second-level table. */
    method CommitPage(va: nat, pa: nat) returns (ok: bool)
      requires TableStored() && Mappable(tab, alloc.numPages, Page, pa / PAGE_SIZE)
      modifies this`tab, alloc.mem
      ensures ok <==> Committable(old(tab), Page, va / PAGE_SIZE)
      ensures tab == if ok then Commit(old(tab), Page, va / PAGE_SIZE, pa / PAGE_SIZE) else old(tab)
      ensures TableStored() && OnlyTablePages(old(alloc.mem[..]), alloc.mem[..], old(tab))
      ensures !ok ==> alloc.mem[..] == old(alloc.mem[..])
    {
      StoredHolds(alloc.mem[..], tab);
      hide Holds, Stored, Committable, EncEntry, WfDescs, Commit;
      ghost var v := va / PAGE_SIZE;
      AddressParts(va);
      CommittablePage(tab, v);
      MaskedPage(va);
      var result := GetPageDescriptor(Base12(va));
      if result.Success? {
        var e := LoadEntry(result.value.frame, result.value.index, v / 0x100);
        EntryFields(tab.l1[v / 0x100].entries[v % 0x100]);
        if Low3(e) == 4 {
          CommitPageStored(alloc.mem[..], tab, v, pa / PAGE_SIZE);
          PageWord(pa);
          Store(result.value, Base12(pa) + 2);
          tab := Commit(tab, Page, v, pa / PAGE_SIZE);
          return true;
        }
      }
      return false;
    }

    /** commit_section: maps a reserved section. */
    method CommitSection(va: nat, pa: nat) returns (ok: bool)
      requires TableStored() && Mappable(tab, alloc.numPages, Section, pa / PAGE_SIZE)
      modifies this`tab, alloc.mem
      ensures ok <==> Committable(old(tab), Section, va / PAGE_SIZE)
      ensures tab == if ok then Commit(old(tab), Section, va / PAGE_SIZE, pa / PAGE_SIZE) else old(tab)
      ensures TableStored() && OnlyTablePages(old(alloc.mem[..]), alloc.mem[..], old(tab))
      ensures !ok ==> alloc.mem[..] == old(alloc.mem[..])
    {
      StoredHolds(alloc.mem[..], tab);
      hide Holds, Stored, Committable, EncDesc, WfDescs, Commit;
      ghost var v := va / PAGE_SIZE;
      AddressParts(va);
      CommittableSection(tab, v);
      MaskedSection(va);
      var result := GetSectionDescriptor(Base20(va), false);
      if result.Success? {
        var w := ReadDesc(result.value, v / 0x100);
        DescFields(tab.l1[v / 0x100]);
        if Low3(w) == 4 {
          CommitSectionStored(alloc.mem[..], tab, v, pa / PAGE_SIZE);
          SectionWord(pa);
          Store(result.value, Base20(pa) + 2);
          tab := Commit(tab, Section, v, pa / PAGE_SIZE);
          return true;
        }
      }
      return false;
    }

    /** Whether the sixteen descriptors from i on are all reserved. */
    method CheckGroupReserved(i: nat) returns (ok: bool)
      requires Shaped() && Holds(alloc.mem[..], tab) && i + 16 <= numEntries
      ensures ok <==> AllReserved(tab.l1, i, 16)
    {
      hide Holds, EncDesc;
      for k := 0 to 16
        invariant AllReserved(tab.l1, i, k)
      {
        var w := LoadDesc(i + k);
        DescFields(tab.l1[i + k]);
        if Low3(w) != 4 {
          return false;
        }
      }
      return true;
    }

    /** Writes a supersection over the sixteen reserved descriptors from i on. */
    method WriteGroup(i: nat, w: word, ghost p: nat)
      requires TableStored() && i % 16 == 0 && i + 16 <= numEntries && AllReserved(tab.l1, i, 16)
      requires Mappable(tab, alloc.numPages, Supersection, p)
      requires w == UnitBase(Supersection, p) * PAGE_SIZE + 0x40002
      modifies this`tab, alloc.mem
      ensures TableStored() && tab == PartSuper(old(tab), i, 16, p)
      ensures OnlyTablePages(old(alloc.mem[..]), alloc.mem[..], old(tab))
    {
      hide Stored, PartSuper, AllReserved, Mappable, TableFrame, UnitBase;
      ghost var t, m := tab, alloc.mem[..];
      PartSuperNone(t, i, p);
      for k := 0 to 16
        invariant TableStored() && tab == PartSuper(t, i, k, p) && OnlyTablePages(m, alloc.mem[..], t)
      {
        PartSuperStored(alloc.mem[..], t, i, k, p);
        FirstLevelFrame(t, i + k);
        PartSuperShape(t, i, k + 1, p);
        Store(L1Slot(base, i + k), w);
        tab := PartSuper(t, i, k + 1, p);
      }
    }

    /** commit_supersection: maps sixteen reserved sections as one. */
    method CommitSupersection(va: nat, pa: nat) returns (ok: bool)
      requires TableStored() && Mappable(tab, alloc.numPages, Supersection, pa / PAGE_SIZE)
      modifies this`tab, alloc.mem
      ensures ok <==> Committable(old(tab), Supersection, va / PAGE_SIZE)
      ensures tab == if ok then Commit(old(tab), Supersection, va / PAGE_SIZE, pa / PAGE_SIZE) else old(tab)
      ensures TableStored() && OnlyTablePages(old(alloc.mem[..]), alloc.mem[..], old(tab))
      ensures !ok ==> alloc.mem[..] == old(alloc.mem[..])
    {
      StoredHolds(alloc.mem[..], tab);
      hide Holds, Stored, Committable, EncDesc, WfDescs, Commit, PartSuper, Mappable;
      ghost var v := va / PAGE_SIZE;
      CommittableSuper(tab, v);
      MaskedSuper(va);
      var result := GetSectionDescriptor(Base24(va), false);
      if result.Success? {
        var i := Base24(va) / SECTION_SIZE;
        ok := CheckGroupReserved(i);
        if ok {
          SuperWord(pa);
          PartSuperAll(tab, v, pa / PAGE_SIZE);
          WriteGroup(i, Base24(pa) + 0x40002, pa / PAGE_SIZE);
        }
        return ok;
      }
      return false;
    }

    /** The commit for the given granularity. */
    method CommitUnit(g: Granularity, va: nat, pa: nat) returns (ok: bool)
      requires TableStored() && Mappable(tab, alloc.numPages, g, pa / PAGE_SIZE)
      modifies this`tab, alloc.mem
      ensures ok <==> Committable(old(tab), g, va / PAGE_SIZE)
      ensures tab == if ok then Commit(old(tab), g, va / PAGE_SIZE, pa / PAGE_SIZE) else old(tab)
      ensures TableStored() && OnlyTablePages(old(alloc.mem[..]), alloc.mem[..], old(tab))
      ensures !ok ==> alloc.mem[..] == old(alloc.mem[..])
    {
      hide Stored, Committable, Commit, Mappable, OnlyTablePages;
      match g {
        case Page => ok := CommitPage(va, pa);
        case Section => ok := CommitSection(va, pa);
        case Supersection => ok := CommitSupersection(va, pa);
      }
    }

    // -------------------------------------------------------------- allocating

    /** Gives a block that has just been granted back to the allocator. */
    method ReturnBlock(g: Granularity, pa: nat, ghost a: FrameState, ghost x: Grant)
      requires alloc.Valid() && Scannable(a, Span(g, 1)) && AllocSpec(a, Span(g, 1)) == Some(x)
      requires alloc.View() == x.after && pa == x.frame * PAGE_SIZE
      modifies alloc`allocatedPages, alloc.counts
      ensures alloc.Valid() && alloc.View() == Returned(a, x)
    {
      hide AllocSpec, WfAlloc, NonZero, BlockSize, Aligned;
      ReturnCounts(a, Span(g, 1), x);
      AddressIsPage(x.frame);
      var z := alloc.RefReleaseRange(pa, Span(g, 1));
    }

    /** Takes a fresh block for one unit. */
    method GrantBlock(g: Granularity) returns (y: Outcome<nat>, ghost x: Grant)
      requires Valid() && counted && Scannable(alloc.View(), Span(g, 1))
      modifies alloc, alloc.counts, alloc.mem
      ensures y.Panicked? <==> AllocSpec(old(alloc.View()), Span(g, 1)).None?
      ensures y.Panicked? ==> y.code == OutOfMemory
      ensures y.Done? ==> AllocSpec(old(alloc.View()), Span(g, 1)) == Some(x) && alloc.View() == x.after && alloc.Valid()
      ensures y.Done? ==> y.value == PAGE_SIZE * x.frame && x.frame < alloc.numPages && UnitBase(g, x.frame) == x.frame
      ensures y.Done? ==> TableStored() && Mappable(tab, alloc.numPages, g, x.frame)
      ensures y.Done? ==> alloc.mem[..] == old(alloc.mem[..])[x.frame := FilledRow()]
    {
      UnitSize(g);
      ghost var s := Snap();
      hide Coherent, AllocSpec, WfAlloc, NonZero, Stored, Mappable, FilledRow, BlockSize, Aligned;
      ghost var frame;
      y, frame := alloc.Alloc(Span(g, 1));
      x := Grant(alloc.View(), frame);
      if y.Done? {
        GrantStored(s, g, x, alloc.mem[..]);
      }
    }

    /** One round of allocate: a fresh block, committed to the unit at va or given back. */
    method AllocateUnit(g: Granularity, va: nat) returns (r: Outcome<bool>, ghost x: Grant)
      requires Valid() && counted && Scannable(alloc.View(), Span(g, 1))
      modifies this`tab, alloc, alloc.counts, alloc.mem
      ensures r.Panicked? <==> AllocSpec(old(alloc.View()), Span(g, 1)).None?
      ensures r.Panicked? ==> r.code == OutOfMemory
      ensures r.Done? ==> AllocSpec(old(alloc.View()), Span(g, 1)) == Some(x)
                          && (r.value <==> Committable(old(tab), g, va / PAGE_SIZE))
      ensures r == Done(true) ==> alloc.View() == x.after && tab == Commit(old(tab), g, va / PAGE_SIZE, x.frame)
      ensures r == Done(false) ==> alloc.View() == Returned(old(alloc.View()), x) && tab == old(tab)
      ensures r.Done? ==> FilledSince(old(Snap()), Snap(), [x.frame])
      ensures r.Done? ==> Valid() && Evolves(old(Snap()), Snap()) && OnlyFreshFrames(old(Snap()), Snap())
    {
      ghost var s := Snap();
      hide Coherent, Evolves, OnlyFreshFrames, AllocSpec, WfAlloc, NonZero, Stored, Commit, Committable, Mappable, FilledRow,
        BlockSize, TableFrame, Uniform, Scannable, FilledSince, OnlyTablePages;
      UnitSize(g);
      var y;
      y, x := GrantBlock(g);
      if y.Panicked? {
        return Panicked(y.code), x;
      }
      AddressIsPage(x.frame);
      ghost var m := alloc.mem[..];
      var ok := CommitUnit(g, va, y.value);
      CommittedPages(s, g, va / PAGE_SIZE, x.frame, ok, tab);
      if ok {
        ElsewhereKept(m, alloc.mem[..], s, x.frame);
        CommitStep(s, g, va / PAGE_SIZE, x, alloc.mem[..]);
      } else {
        ReturnBlock(g, y.value, s.a, x);
        ReturnStep(s, g, x, m);
      }
      GrantFills(s, Span(g, 1), x, m, Snap());
      r := Done(ok);
    }

    /** The first i units from page v on have been allocated since the state s. */
    ghost predicate AllocatedSince(s: Snapshot, g: Granularity, v: nat, i: nat)
      reads this, alloc, alloc.counts, alloc.mem
    {
      && Valid() && counted && Scannable(alloc.View(), Span(g, 1))
      && Allocating(s.a, s.t, alloc.View(), tab, g, v, i)
      && FilledSince(s, Snap(), AllocRun(s.a, Span(g, 1), i).value.frames)
      && Evolves(s, Snap()) && OnlyFreshFrames(s, Snap())
    }

    /** Round i of the loop in allocate. */
    method AllocateNext(va: nat, i: nat, g: Granularity, ghost s: Snapshot, ghost v: nat, ghost units: nat) returns (r: Outcome<bool>)
      requires AllocatedSince(s, g, v, i) && i < units && va / PAGE_SIZE == v + Span(g, i)
      modifies this`tab, alloc, alloc.counts, alloc.mem
      ensures r.Done? && r.value ==> AllocatedSince(s, g, v, i + 1)
      ensures r.Panicked? || !r.value ==> Allocated(s.a, s.t, r, alloc.View(), tab, g, v, units)
      ensures r.Done? && !r.value ==> FilledOutcome(s, Snap(), g, v, units)
      ensures r.Done? ==> Valid() && Evolves(s, Snap()) && OnlyFreshFrames(s, Snap())
    {
      hide Coherent, Evolves, OnlyFreshFrames, AllocSpec, WfAlloc, NonZero, Commit, Committable, Allocating, Allocated,
        BlockSize, Aligned, WfDescs, Scannable, Span, FilledSince, FilledOutcome, AllocRun;
      ghost var q := Snap();
      AllocatingNext(s.a, s.t, q.a, q.t, g, v, i);
      ghost var grant;
      r, grant := AllocateUnit(g, va);
      if r.Panicked? {
        AllocatingFails(s.a, s.t, q.a, q.t, g, v, i, units, alloc.View(), tab);
        return;
      }
      EvolvesTrans(s, q, Snap());
      if r.value {
        GrantedFrame(q.a, g, grant);
        AllocatingStep(s.a, s.t, q.a, q.t, g, v, i, grant);
        RunFrames(s.a, s.t, q.a, q.t, g, v, i, grant);
        FilledThen(s, q, Snap(), AllocRun(s.a, Span(g, 1), i).value.frames, grant.frame);
      } else {
        AllocatingStops(s.a, s.t, q.a, q.t, g, v, i, units, grant);
        FilledStops(s, q, Snap(), g, v, i, units, grant);
      }
    }

    /** allocate: fresh memory for the units from the given address on, one at a time, stopping at the first unit that
        is not reserved. */
    method Allocate(va: nat, units: nat, g: Granularity) returns (r: Outcome<bool>)
      requires Valid() && Aligned(alloc.numPages, Span(g, 1))
      requires Addressable(g, va / PAGE_SIZE, units)
      modifies this`tab, alloc, alloc.counts, alloc.mem
      ensures !counted ==> r == Panicked(AllocationInNonReferenceCountedTable)
      ensures counted ==> Allocated(old(alloc.View()), old(tab), r, alloc.View(), tab, g, va / PAGE_SIZE, units)
      ensures r.Done? ==> FilledOutcome(old(Snap()), Snap(), g, va / PAGE_SIZE, units)
      ensures r.Done? ==> Valid() && Evolves(old(Snap()), Snap()) && OnlyFreshFrames(old(Snap()), Snap())
    {
      if !counted {
        return Panicked(AllocationInNonReferenceCountedTable);
      }
      hide AllocatedSince, Valid, Snap, Evolves, OnlyFreshFrames, Allocated, FilledOutcome, Aligned, Span;
      ghost var s, v := Snap(), va / PAGE_SIZE;
      AllocateStarts(g, v);
      for i := 0 to units
        invariant AllocatedSince(s, g, v, i)
      {
        UnitAddress(va, g, i);
        r := AllocateNext(va + Span(g, i) * PAGE_SIZE, i, g, s, v, units);
        if r.Panicked? || !r.value {
          return r;
        }
      }
      AllocateEnds(s, g, v, units);
      return Done(true);
    }

    lemma AllocateStarts(g: Granularity, v: nat)
      requires Valid() && counted && Aligned(alloc.numPages, Span(g, 1))
      ensures AllocatedSince(Snap(), g, v, 0)
    {
      hide Coherent, Evolves, OnlyFreshFrames, WfAlloc, NonZero, Allocating, BlockSize, Aligned, WfDescs, Span, FilledSince, AllocRun;
      UnitSize(g);
      var s := Snap();
      CoherentShape(s);
      CoherentDescs(s);
      EvolvesRefl(s);
      AllocatingStart(s.a, s.t, g, v);
      StartFilled(s, g);
    }

    lemma AllocateEnds(s: Snapshot, g: Granularity, v: nat, units: nat)
      requires AllocatedSince(s, g, v, units)
      ensures Allocated(s.a, s.t, Done(true), alloc.View(), tab, g, v, units) && FilledOutcome(s, Snap(), g, v, units)
      ensures Valid() && Evolves(s, Snap()) && OnlyFreshFrames(s, Snap())
    {
      hide Coherent, Evolves, OnlyFreshFrames, WfAlloc, NonZero, Allocating, Allocated, FilledSince, FilledOutcome, AllocRun, Scannable;
      AllocatingDone(s.a, s.t, alloc.View(), tab, g, v, units);
      FilledDone(s, Snap(), g, v, units);
    }

    // -------------------------------------------------------------- mapping

    /** The first i units have been mapped since the state s. */
    ghost predicate MappedSince(s: Snapshot, g: Granularity, v: nat, p: nat, i: nat)
      reads this, alloc, alloc.counts, alloc.mem
    {
      TableStored() && tab.counted == s.t.counted && Mapped(s, Snap(), g, v, p, i)
    }

    /** Round i of the loop in map. */
    method MapNext(va: nat, pa: nat, i: nat, g: Granularity, ghost s: Snapshot, ghost v: nat, ghost p: nat, ghost units: nat)
      returns (ok: bool)
      requires MappedSince(s, g, v, p, i) && i < units && RangeMappable(s.t, alloc.numPages, g, p, units)
      requires va / PAGE_SIZE == v + Span(g, i) && pa / PAGE_SIZE == p + Span(g, i)
      modifies this`tab, alloc.mem
      ensures MappedSince(s, g, v, p, if ok then i + 1 else i)
      ensures !ok ==> Ready(s.t, g, v, units) == i
    {
      hide Stored, Commit, CommitRun, Committable, Mappable, RangeMappable, Mapped, OnlyTablePages, Span, Ready;
      ghost var q := Snap();
      UnitMappable(s.t, alloc.numPages, g, p, units, i);
      RangeBelow(s.t, alloc.numPages, g, p, units, i);
      SameMappable(s.t, tab, alloc.numPages, g, p + Span(g, i));
      MappedNext(s, q, g, v, p, i);
      MappedFrames(s, q, g, v, p, i);
      ok := CommitUnit(g, va, pa);
      if ok {
        MappedStep(s, q, g, v, p, i, alloc.mem[..], tab);
      } else {
        MappedReady(s, Snap(), g, v, p, i, units);
      }
    }

    /** The loop of map: commits units until one is not reserved. */
    method MapUnits(va: nat, pa: nat, units: nat, g: Granularity, ghost s: Snapshot) returns (ok: bool, ghost c: nat)
      requires Valid() && s == Snap() && RangeMappable(tab, alloc.numPages, g, pa / PAGE_SIZE, units)
      modifies this`tab, alloc.mem
      ensures MappedSince(s, g, va / PAGE_SIZE, pa / PAGE_SIZE, c)
      ensures c == Ready(s.t, g, va / PAGE_SIZE, units) && (ok <==> c == units)
    {
      ghost var v, p := va / PAGE_SIZE, pa / PAGE_SIZE;
      CoherentShape(s);
      hide Coherent, WfAlloc, NonZero, Stored, CommitRun, Committable, RangeMappable, Mapped, OnlyTablePages, Span, Ready, Aligned;
      MappedNothing(s, g, v, p);
      for i := 0 to units
        invariant MappedSince(s, g, v, p, i)
      {
        UnitAddress(va, g, i);
        UnitAddress(pa, g, i);
        ok := MapNext(va + Span(g, i) * PAGE_SIZE, pa + Span(g, i) * PAGE_SIZE, i, g, s, v, p, units);
        if !ok {
          return false, i;
        }
      }
      MappedReady(s, Snap(), g, v, p, units, units);
      return true, units;
    }

    /** The reference-taking half of map, for a table that counts references. */
    method AcquireRange(pa: nat, n: nat) returns (r: Outcome<()>)
      requires alloc.Valid() && !InRun(alloc.numPages, pa / PAGE_SIZE, n)
      modifies alloc.counts
      ensures r.Panicked? <==> FreeInRun(old(alloc.View()), pa / PAGE_SIZE, n)
      ensures r.Panicked? ==> r.code == AddRefToUnallocatedPage
      ensures r.Done? ==> Acquired(old(alloc.View()), alloc.View(), pa / PAGE_SIZE, n)
      ensures r.Done? ==> (alloc.Valid() <==> NoneFull(old(alloc.counts[..]), pa / PAGE_SIZE, n))
    {
      hide WfAlloc, NonZero;
      r := alloc.RefAcquireRange(pa, n);
    }

    /** map: commits the given physical range at the units from va on, stopping at the first unit that is not reserved;
        a table that counts references takes one on each frame, but only after every unit has been committed. */
    method Map(va: nat, pa: nat, units: nat, g: Granularity) returns (r: Outcome<bool>)
      requires Valid() && Addressable(g, va / PAGE_SIZE, units)
      requires RangeMappable(tab, alloc.numPages, g, pa / PAGE_SIZE, units)
      modifies this`tab, alloc.counts, alloc.mem
      ensures MapOutcome(old(Snap()), r, Snap(), g, va / PAGE_SIZE, pa / PAGE_SIZE, units)
      ensures r.Done? ==> TableStored()
      ensures r.Done? ==> (alloc.Valid() <==> !counted || !r.value || NoneFull(old(alloc.counts[..]), pa / PAGE_SIZE, Span(g, units)))
      ensures r.Done? && MapKeepsBooks(old(Snap()), g, va / PAGE_SIZE, pa / PAGE_SIZE, units)
              ==> Valid() && Evolves(old(Snap()), Snap()) && (!counted ==> OnlyFreshFrames(old(Snap()), Snap()))
    {
      ghost var s, v, p := Snap(), va / PAGE_SIZE, pa / PAGE_SIZE;
      hide Coherent, Evolves, OnlyFreshFrames, WfAlloc, NonZero, Stored, CommitRun, RangeMappable, Mapped, OnlyTablePages, Span,
        Ready, MapOutcome, MapKeepsBooks, Consecutive, FreeInRun, Acquired, InRun;
      var ok, c := MapUnits(va, pa, units, g, s);
      ghost var q := Snap();
      var size := Span(g, units);
      if ok && counted {
        RangeInMemory(s.t, alloc.numPages, g, p, units);
        var x := AcquireRange(pa, size);
        MapAcquired(s, q, x, alloc.View(), g, v, p, units);
        if x.Panicked? {
          return Panicked(x.code);
        }
      } else {
        MapStopped(s, q, g, v, p, c, units);
      }
      r := Done(ok);
      MapBooksKept(s, r, Snap(), g, v, p, units);
    }

    // -------------------------------------------------------------- reserve, reserve_allocate

    /** reserve(units, granularity) */
    method Reserve(units: nat, g: Granularity) returns (r: Outcome<Result<nat>>)
      requires Valid() && 0 < units && (g == Page ==> units <= 0x100)
      modifies this`tab, alloc, alloc.counts, alloc.mem
      ensures ReserveOutcome(old(Snap()), r, Snap(), g, units)
      ensures r.Done? ==> Valid() && Evolves(old(Snap()), Snap()) && OnlyFreshFrames(old(Snap()), Snap()) && Quiet(old(Snap()), Snap())
    {
      hide Coherent, Evolves, OnlyFreshFrames, Quiet, WfAlloc, NonZero, Aligned, FirstFitPages, FirstFitSections, FirstFitSupersections;
      match g {
        case Page => r := ReservePages(units);
        case Section =>
          var x := ReserveSections(units);
          r := Done(x);
        case Supersection =>
          var x := ReserveSupersections(units);
          r := Done(x);
      }
    }

    /** reserve(address, units, granularity) */
    method ReserveAt(address: nat, units: nat, g: Granularity) returns (r: Outcome<Result<nat>>)
      requires Valid() && Addressable(g, address / PAGE_SIZE, units)
      modifies this`tab, alloc, alloc.counts, alloc.mem
      ensures ReserveAtOutcome(old(Snap()), r, Snap(), g, address / PAGE_SIZE, units)
      ensures r.Done? ==> Valid() && Evolves(old(Snap()), Snap()) && OnlyFreshFrames(old(Snap()), Snap()) && Quiet(old(Snap()), Snap())
    {
      AddressParts(address);
      MaskedSuper(address);
      UnitBaseFacts(g, address / PAGE_SIZE);
      hide Coherent, Evolves, OnlyFreshFrames, Quiet, WfAlloc, NonZero, Aligned, AllocRun, ReservedPages, PlacedSections, AllFree;
      match g {
        case Page => r := ReservePagesAt(address, units);
        case Section =>
          var x := ReserveSectionsAt(address, units);
          r := Done(x);
        case Supersection =>
          var x := ReserveSupersectionsAt(address, units);
          r := Done(x);
      }
    }

    /** The allocating half of reserve_allocate, for units leased since the state s: it never returns false. */
    method AllocateLease(va: nat, units: nat, g: Granularity, ghost s: Snapshot) returns (r: Outcome<bool>, ghost ps: seq<nat>)
      requires Valid() && Aligned(alloc.numPages, Span(g, 1)) && Addressable(g, va / PAGE_SIZE, units)
      requires LeaseEffect(s.t, tab, g, va / PAGE_SIZE, units) || (units == 0 && tab == s.t)
      requires Evolves(s, Snap()) && OnlyFreshFrames(s, Snap())
      modifies this`tab, alloc, alloc.counts, alloc.mem
      ensures r.Panic() == BackingPanic(Some(old(alloc.View())), counted, g, units)
      ensures r.Done? ==> r.value
      ensures r == Done(true) ==> counted && |ps| == units && Backed(s, Snap(), g, va / PAGE_SIZE, ps)
                                  && AllocRun(old(alloc.View()), Span(g, 1), units) == Some(Grants(alloc.View(), ps))
      ensures r == Done(true) ==> TranslatesTo(tab, g, PAGE_SIZE * UnitBase(g, va / PAGE_SIZE), ps) && FilledSince(old(Snap()), Snap(), ps)
      ensures r == Done(true) && g == Page ==> SameFree(old(tab), tab)
      ensures r == Done(true) ==> Valid() && Evolves(s, Snap()) && OnlyFreshFrames(s, Snap())
    {
      UnitSize(g);
      ghost var q := Snap();
      assert Scannable(q.a, Span(g, 1));
      hide Coherent, Evolves, OnlyFreshFrames, WfAlloc, NonZero, Aligned, Span, LeaseEffect, Backed, Allocated, Scannable, TranslatesTo,
        FilledSince, FilledOutcome;
      ps := [];
      r := Allocate(va, units, g);
      if counted {
        ps := LeaseAllocates(s, q, r, Snap(), g, va / PAGE_SIZE, units);
        if r.Done? {
          LeaseInTable(s.t, q.t, g, va / PAGE_SIZE, units);
          BackedTranslates(s, Snap(), g, va / PAGE_SIZE, ps);
          EvolvesTrans(s, q, Snap());
        }
      }
    }

    /** reserve_allocate(address, units, granularity): fails exactly when the reservation does, and otherwise, on a
        table that counts references, backs every unit with fresh memory. */
    method ReserveAllocateAt(address: nat, units: nat, g: Granularity) returns (r: Outcome<Result<nat>>, ghost ps: seq<nat>)
      requires Valid() && Aligned(alloc.numPages, Span(g, 1)) && Addressable(g, address / PAGE_SIZE, units)
      modifies this`tab, alloc, alloc.counts, alloc.mem
      ensures r == Done(Failure) <==> !Placeable(old(tab), g, address / PAGE_SIZE, units)
      ensures r == Done(Failure) ==> Snap() == old(Snap())
      ensures r.Panic() == if Placeable(old(tab), g, address / PAGE_SIZE, units)
                           then BackingPanic(AfterReserveAt(old(alloc.View()), old(tab), g, address / PAGE_SIZE, units), counted, g, units)
                           else None
      ensures r.Done? && r.value.Success? ==> counted && |ps| == units && r.value.value == PAGE_SIZE * UnitBase(g, address / PAGE_SIZE)
                                                && Backed(old(Snap()), Snap(), g, UnitBase(g, address / PAGE_SIZE), ps)
      ensures r.Done? && r.value.Success? ==>
                var b := AfterReserveAt(old(alloc.View()), old(tab), g, address / PAGE_SIZE, units);
                b.Some? && AllocRun(b.value, Span(g, 1), units) == Some(Grants(alloc.View(), ps))
      ensures r.Done? && r.value.Success? ==> TranslatesTo(tab, g, r.value.value, ps) && FullOfFill(alloc.mem[..], ps)
                                              && OnlyFilled(old(Snap()), Snap(), ps)
      ensures r.Done? && r.value.Success? && g == Page ==> Taken(old(tab), tab, address / PAGE_SIZE, units)
      ensures r.Done? ==> Valid() && Evolves(old(Snap()), Snap()) && OnlyFreshFrames(old(Snap()), Snap())
    {
      hide Coherent, Evolves, OnlyFreshFrames, WfAlloc, NonZero, Aligned, Span, LeaseEffect, Backed, Placeable, ReserveAtOutcome,
        AfterReserveAt, AllocRun, TranslatesTo, FilledSince, FullOfFill,
        OnlyFilled, Quiet;
      ghost var s, v := Snap(), address / PAGE_SIZE;
      ps := [];
      r := ReserveAt(address, units, g);
      PlacedCodes(s, r, Snap(), g, v, units);
      PlacedPanics(s, r, Snap(), g, v, units);
      if r.Panicked? || r.value.Failure? {
        return;
      }
      if g == Page {
        PlacedTakes(s, r, Snap(), v, units);
      }
      var x;
      ghost var q := Snap();
      x, ps := AllocateLease(r.value.value, units, g, s);
      if x.Done? {
        FilledWords(q, Snap(), ps);
        QuietThenFilled(s, q, Snap(), ps);
      }
      r := if x.Panicked? then Panicked(x.code) else r;
    }

    /** reserve_allocate(units, granularity): fails exactly when there is no room, and otherwise, on a table that
        counts references, backs the units at the returned address with fresh memory. */
    method ReserveAllocate(units: nat, g: Granularity) returns (r: Outcome<Result<nat>>, ghost ps: seq<nat>)
      requires Valid() && Aligned(alloc.numPages, Span(g, 1)) && 0 < units && (g == Page ==> units <= 0x100)
      modifies this`tab, alloc, alloc.counts, alloc.mem
      ensures r == Done(Failure) <==> NoRoom(old(tab), g, units)
      ensures r == Done(Failure) ==> Snap() == old(Snap())
      ensures r.Panic() == if NoRoom(old(tab), g, units) then None
                           else BackingPanic(AfterReserve(old(alloc.View()), old(tab), g, units), counted, g, units)
      ensures r.Done? && r.value.Success? ==> counted && |ps| == units && r.value.value % PAGE_SIZE == 0
                                              && Backed(old(Snap()), Snap(), g, r.value.value / PAGE_SIZE, ps)
      ensures r.Done? && r.value.Success? ==> LowestRoom(old(tab), g, units, r.value.value)
      ensures r.Done? && r.value.Success? ==>
                var b := AfterReserve(old(alloc.View()), old(tab), g, units);
                b.Some? && AllocRun(b.value, Span(g, 1), units) == Some(Grants(alloc.View(), ps))
      ensures r.Done? && r.value.Success? ==> TranslatesTo(tab, g, r.value.value, ps) && FullOfFill(alloc.mem[..], ps)
                                              && OnlyFilled(old(Snap()), Snap(), ps)
      ensures r.Done? ==> Valid() && Evolves(old(Snap()), Snap()) && OnlyFreshFrames(old(Snap()), Snap())
    {
      hide Coherent, Evolves, OnlyFreshFrames, WfAlloc, NonZero, Aligned, Span, LeaseEffect, Backed, NoRoom, ReserveOutcome,
        AfterReserve, AllocRun, LowestRoom, TranslatesTo, FilledSince, FullOfFill,
        OnlyFilled, Quiet;
      ghost var s := Snap();
      ps := [];
      r := Reserve(units, g);
      ReserveFailsIffNoRoom(s, r, Snap(), g, units);
      UnplacedPanics(s, r, Snap(), g, units);
      if r.Panicked? || r.value.Failure? {
        return;
      }
      ReserveLeases(s, r, Snap(), g, units);
      ReserveIsLowest(s, r, Snap(), g, units);
      LeaseBound(Snap(), s.t, g, r.value.value / PAGE_SIZE, units);
      var x;
      ghost var q := Snap();
      x, ps := AllocateLease(r.value.value, units, g, s);
      if x.Done? {
        FilledWords(q, Snap(), ps);
        QuietThenFilled(s, q, Snap(), ps);
      }
      r := if x.Panicked? then Panicked(x.code) else r;
    }

    // -------------------------------------------------------------- construction

    static method ClearTable(alloc: PageAlloc, base: nat, n: nat)
      requires alloc.mem.Length == alloc.numPages && base + 4 <= alloc.numPages && n <= 0x1000
      modifies alloc.mem
      ensures ZeroWords(alloc.mem[..], base, n)
      ensures forall p :: 0 <= p < alloc.numPages && !(base <= p < base + (n + 0x3ff) / 0x400) ==> alloc.mem[p] == old(alloc.mem[p])
    {
      hide ZeroWords;
      ZeroNothing(alloc.mem[..], base);
      for i := 0 to n
        invariant ZeroWords(alloc.mem[..], base, i)
        invariant forall p :: 0 <= p < alloc.numPages && !(base <= p < base + (n + 0x3ff) / 0x400) ==> alloc.mem[p] == old(alloc.mem[p])
      {
        ZeroNext(alloc.mem[..], base, i);
        alloc.mem[base + i / 0x400] := alloc.mem[base + i / 0x400][i % 0x400 := 0];
      }
    }

    /** The constructor: four fresh frames, with every descriptor free. */
    static method Create(alloc: PageAlloc, isSupervisor: bool, isReferenceCounted: bool) returns (r: Outcome<PageTable>)
      requires alloc.Valid() && Aligned(alloc.numPages, 4)
      modifies alloc, alloc.counts, alloc.mem
      ensures r.Panicked? <==> AllocSpec(old(alloc.View()), 4).None?
      ensures r.Panicked? ==> r.code == OutOfMemory
      ensures r.Done? ==> fresh(r.value) && r.value.alloc == alloc && r.value.Valid()
      ensures r.Done? ==> AllocSpec(old(alloc.View()), 4) == Some(Grant(alloc.View(), r.value.base))
      ensures r.Done? ==> r.value.tab == EmptyTable(r.value.base, EntryCount(isSupervisor), isReferenceCounted)
      ensures r.Done? && isSupervisor ==> PageCount(r.value.tab) == 0x100000 && forall v: nat :: v < 0x100000 ==> At(r.value.tab, v) == Free
      ensures r.Done? && !isSupervisor ==> PageCount(r.value.tab) == 0x80000 && forall v: nat :: v < 0x80000 ==> At(r.value.tab, v) == Free
      ensures r.Done? ==> r.value.counted == isReferenceCounted
      ensures r.Done? ==> forall p :: 0 <= p < alloc.numPages && !(r.value.base <= p < r.value.base + if isSupervisor then 4 else 2)
                                      ==> alloc.mem[p] == old(alloc.mem[p])
    {
      hide AllocSpec, WfAlloc, NonZero, FilledRow, EmptyTable, Aligned, Coherent;
      ghost var a := alloc.View();
      var x, frame := alloc.Alloc(4);
      if x.Panicked? {
        return Panicked(x.code);
      }
      ghost var g := Grant(alloc.View(), frame);
      GrantCounts(a, 4, g, 0);
      var firstLevelNumEntries := EntryCount(isSupervisor);
      var base := x.value / PAGE_SIZE;
      ClearTable(alloc, base, firstLevelNumEntries);
      EmptyCoherent(a, g, alloc.mem[..], firstLevelNumEntries, isReferenceCounted);
      var t := new PageTable.Around(alloc, base, firstLevelNumEntries, isReferenceCounted,
                                    EmptyTable(frame, firstLevelNumEntries, isReferenceCounted));
      NewTableFree(frame, isSupervisor, isReferenceCounted);
      r := Done(t);
    }

    // -------------------------------------------------------------- lookups

    /** virtual_to_physical */
    method VirtualToPhysical(va: nat) returns (r: Result<nat>)
      requires TableStored()
      ensures r == Translate(tab, va)
    {
      StoredHolds(alloc.mem[..], tab);
      hide Holds, Stored, EncDesc, EncEntry, Translate, At;
      var i := va / SECTION_SIZE;
      AddressParts(va);
      if i >= numEntries {
        OutOfTable(tab, va);
        return Failure;
      }
      TranslateIsWalkDesc(tab, va);
      var w := LoadDesc(i);
      DescFields(tab.l1[i]);
      if Low2(w) == 1 {
        var j := va / PAGE_SIZE % 0x100;
        var e := LoadEntry(Base10(w) / PAGE_SIZE, j, i);
        EntryFields(tab.l1[i].entries[j]);
        return if Bit1(e) then Success(Base12(e) + va % PAGE_SIZE) else Failure;
      }
      if Low2(w) == 2 {
        return if Bit18(w) then Success(Base24(w) + va % SUPERSECTION_SIZE) else Success(Base20(w) + va % SECTION_SIZE);
      }
      return Failure;
    }

    /** The inner loop of physical_to_virtual: whether the second-level table of section i maps frame p. */
    method FindFrame(frame: nat, pa: nat, ghost i: nat) returns (found: bool)
      requires TableStored() && i < numEntries && tab.l1[i].DSecond? && tab.l1[i].frame == frame
      ensures found <==> SectionMaps(tab, i, pa / PAGE_SIZE)
    {
      StoredHolds(alloc.mem[..], tab);
      hide Holds, Stored, EncEntry;
      for j := 0 to SECOND_LEVEL_ENTRIES
        invariant forall k: nat :: k < j ==> DescAt(tab.l1[i], i, k) != Committed(pa / PAGE_SIZE)
      {
        var e := LoadEntry(frame, j, i);
        EntryFields(tab.l1[i].entries[j]);
        if Bit1(e) && Base12(e) == Base12(pa) {
          assert DescAt(tab.l1[i], i, j) == Committed(pa / PAGE_SIZE);
          return true;
        }
      }
      return false;
    }

    /** physical_to_virtual succeeds exactly when some virtual address translates to the given physical address. */
    method PhysicalToVirtual(pa: nat) returns (found: bool)
      requires TableStored() && Uniform(tab.l1)
      ensures found <==> Reached(tab, pa)
    {
      hide Holds, Stored, EncDesc, SectionMaps, Maps, Uniform, Reached;
      ghost var p := pa / PAGE_SIZE;
      StoredHolds(alloc.mem[..], tab);
      ReachedIffMapped(tab, pa);
      for i := 0 to numEntries
        invariant forall k: nat :: k < i ==> !SectionMaps(tab, k, p)
      {
        var w := LoadDesc(i);
        DescFields(tab.l1[i]);
        var hit := false;
        if Low2(w) == 1 {
          hit := FindFrame(Base10(w) / PAGE_SIZE, pa, i);
        } else if Low2(w) == 2 {
          PhysicalParts(pa);
          if Bit18(w) {
            hit := Base24(w) == Base24(pa);
            SuperMapsIff(tab, i, p);
          } else {
            hit := Base20(w) == Base20(pa);
            SectionMapsIff(tab, i, p);
          }
        } else {
          UnmappedSection(tab, i, p);
        }
        if hit {
          if !tab.l1[i].DSuper? {
            MapsSomewhere(tab, i, p);
          }
          return true;
        }
      }
      MapsNowhere(tab, p);
      return false;
    }

    /** get_unit_state at page granularity */
    method PageUnitState(va: nat) returns (r: Result<UnitState>)
      requires TableStored()
      ensures UnitStateIs(tab, va, Page, r)
    {
      StoredHolds(alloc.mem[..], tab);
      hide Holds, Stored, EncDesc, EncEntry, WordState;
      ghost var v, i := va / PAGE_SIZE, va / SECTION_SIZE;
      AddressParts(va);
      var section := GetSectionDescriptor(va, false);
      if section.Success? {
        var w := ReadDesc(section.value, i);
        DescState(tab.l1[i]);
        SectionStateIsAll(tab, i, v % 0x100);
        return Success(WordState(w));
      }
      var page := GetPageDescriptor(va);
      if page.Failure? {
        return Failure;
      }
      var e := LoadEntry(page.value.frame, page.value.index, i);
      EntryWordState(tab.l1[i].entries[v % 0x100]);
      return Success(WordState(e));
    }

    /** get_unit_state at section granularity */
    method SectionUnitState(va: nat) returns (r: Result<UnitState>)
      requires TableStored()
      ensures UnitStateIs(tab, va, Section, r)
    {
      StoredHolds(alloc.mem[..], tab);
      hide Holds, Stored, EncDesc, WordState;
      ghost var i := va / SECTION_SIZE;
      var section := GetSectionDescriptor(va, false);
      if section.Failure? {
        return Failure;
      }
      var w := ReadDesc(section.value, i);
      DescState(tab.l1[i]);
      return Success(WordState(w));
    }

    /** get_unit_state at supersection granularity */
    method SupersectionUnitState(va: nat) returns (r: Result<UnitState>)
      requires TableStored()
      ensures UnitStateIs(tab, va, Supersection, r)
    {
      StoredHolds(alloc.mem[..], tab);
      hide Holds, Stored, EncDesc, WordState, GroupSeen, GroupState, SectionState;
      ghost var i := 16 * (va / SUPERSECTION_SIZE);
      var base := Base24(va);
      var allFree, allReserved, allCommitted := true, true, true;
      NothingSeen(tab, i);
      for k := 0 to 16
        invariant k == 0 || GroupSeen(tab, i, k, allFree, allReserved, allCommitted)
        invariant k == 0 ==> allFree && allReserved && allCommitted
      {
        SectionAddress(i, k);
        var section := GetSectionDescriptor(base + k * SECTION_SIZE, false);
        if section.Failure? {
          GroupBroken(tab, i, k);
          return Failure;
        }
        var w := ReadDesc(section.value, i + k);
        DescState(tab.l1[i + k]);
        GroupSeenNext(tab, i, k, allFree, allReserved, allCommitted);
        allFree := allFree && WordState(w) == UnitFree;
        allReserved := allReserved && WordState(w) == UnitReserved;
        allCommitted := allCommitted && WordState(w) == UnitCommitted;
      }
      GroupSeenAll(tab, i, allFree, allReserved, allCommitted);
      r := if allFree then Success(UnitFree)
           else if allReserved then Success(UnitReserved)
           else if allCommitted then Success(UnitCommitted)
           else Failure;
    }

    /** get_unit_state */
    method GetUnitState(va: nat, g: Granularity) returns (r: Result<UnitState>)
      requires TableStored()
      ensures UnitStateIs(tab, va, g, r) && UnitReads(tab, va, g, r)
    {
      hide Stored, UnitStateIs, UnitReads;
      match g {
        case Page => r := PageUnitState(va);
        case Section => r := SectionUnitState(va);
        case Supersection => r := SupersectionUnitState(va);
      }
      UnitStateReads(tab, va, g, r);
    }

    // -------------------------------------------------------------- destruction

    /** Releases one frame that is in use, or is outside memory. */
    method ReleaseFrame(pa: nat, ghost p: nat)
      requires alloc.Valid() && pa == PAGE_SIZE * p && p != alloc.numPages
      requires p < alloc.numPages ==> alloc.counts[p] > One(p == 0)
      modifies alloc`allocatedPages, alloc.counts
      ensures alloc.Valid() && SameNext(old(alloc.View()), alloc.View())
      ensures forall f :: 0 <= f < alloc.numPages ==> alloc.counts[f] == old(alloc.counts[f]) - One(f == p)
    {
      hide WfAlloc, NonZero;
      AddressIsPage(p);
      var x := alloc.RefRelease(pa);
    }

    /** Releases what a second-level table maps, and then the table's own frame. */
    method ReleaseSecondLevel(frame: nat, ghost i: nat)
      requires TableStored() && alloc.Valid() && i < numEntries && tab.l1[i].DSecond? && tab.l1[i].frame == frame
      requires Covers(alloc.counts[..], tab.l1[i], i, counted)
      modifies alloc`allocatedPages, alloc.counts
      ensures alloc.Valid() && SameNext(old(alloc.View()), alloc.View())
      ensures LessDesc(old(alloc.counts[..]), alloc.counts[..], tab.l1[i], i, counted)
    {
      StoredHolds(alloc.mem[..], tab);
      SecondFrame(alloc.mem[..], tab, i);
      ghost var c, d := alloc.counts[..], tab.l1[i];
      hide Holds, Stored, EncEntry, WfAlloc, NonZero, Covers, LessEntries, LessDesc;
      NoEntries(c, d.entries, counted);
      for j := 0 to SECOND_LEVEL_ENTRIES
        invariant alloc.Valid() && SameNext(old(alloc.View()), alloc.View())
        invariant LessEntries(c, alloc.counts[..], d.entries, j, counted)
      {
        var e := LoadEntry(frame, j, i);
        EntryFields(d.entries[j]);
        ghost var before := alloc.counts[..];
        if Bit1(e) && counted {
          EntryInMemory(tab, alloc.numPages, i, j, c, before);
          ReleaseFrame(Base12(e), d.entries[j].frame);
        }
        EntryReleased(c, before, alloc.counts[..], d.entries, j, counted);
      }
      TableFrameCovered(c, alloc.counts[..], d, i, counted);
      ghost var before := alloc.counts[..];
      ReleaseFrame(frame * PAGE_SIZE, frame);
      SecondReleased(c, before, alloc.counts[..], d, i, counted);
    }

    /** Releases what an unsplit, committed section maps: 256 frames. */
    method ReleaseRun(pa: nat, ghost i: nat)
      requires TableStored() && alloc.Valid() && i < numEntries && counted && (tab.l1[i].DSection? || tab.l1[i].DSuper?)
      requires pa == PAGE_SIZE * RunStart(tab.l1[i], i) && Covers(alloc.counts[..], tab.l1[i], i, true)
      modifies alloc`allocatedPages, alloc.counts
      ensures alloc.Valid() && SameNext(old(alloc.View()), alloc.View())
      ensures LessDesc(old(alloc.counts[..]), alloc.counts[..], tab.l1[i], i, true)
    {
      ClearOfEdge(tab, alloc.numPages, i);
      ghost var p := RunStart(tab.l1[i], i);
      RunCovered(alloc.counts[..], tab.l1[i], i);
      RunReleased(alloc.counts[..], tab.l1[i], i);
      hide Stored, WfAlloc, NonZero, Covers, LessDesc, RunStart;
      AddressIsPage(p);
      var x := alloc.RefReleaseRange(pa, SECOND_LEVEL_ENTRIES);
    }

    /** Releases everything descriptor i stands for. */
    method ReleaseSection(i: nat)
      requires TableStored() && alloc.Valid() && i < numEntries && Covers(alloc.counts[..], tab.l1[i], i, counted)
      modifies alloc`allocatedPages, alloc.counts
      ensures alloc.Valid() && SameNext(old(alloc.View()), alloc.View())
      ensures LessDesc(old(alloc.counts[..]), alloc.counts[..], tab.l1[i], i, counted)
    {
      StoredHolds(alloc.mem[..], tab);
      hide Stored, EncDesc, WfAlloc, NonZero, Covers, LessDesc;
      var w := LoadDesc(i);
      DescFields(tab.l1[i]);
      if Low2(w) == 1 {
        ReleaseSecondLevel(Base10(w) / PAGE_SIZE, i);
      } else if Low2(w) == 2 && counted {
        SliceAddress(tab.l1[i], i);
        var pa := if Bit18(w) then Base24(w) + SECTION_SIZE * (i % 16) else Base20(w);
        ReleaseRun(pa, i);
      } else {
        NothingReleased(alloc.counts[..], tab.l1[i], i, counted);
      }
    }

    /** The loop of the destructor. */
    method ReleaseSections()
      requires TableStored() && alloc.Valid() && Releasable(alloc.counts[..], tab)
      modifies alloc`allocatedPages, alloc.counts
      ensures alloc.Valid() && SameNext(old(alloc.View()), alloc.View())
      ensures LessFirst(old(alloc.counts[..]), alloc.counts[..], tab, |tab.l1|)
    {
      ghost var c := alloc.counts[..];
      hide Stored, WfAlloc, NonZero, LessFirst, LessDesc, Covers, Releasable;
      NoneReleased(c, tab);
      for i := 0 to numEntries
        invariant alloc.Valid() && SameNext(old(alloc.View()), alloc.View())
        invariant LessFirst(c, alloc.counts[..], tab, i)
      {
        ghost var d := alloc.counts[..];
        NextCovered(c, d, tab, i);
        ReleaseSection(i);
        NextReleased(c, d, alloc.counts[..], tab, i);
      }
    }

    /** The destructor: gives back every reference the table holds, and panics never. */
    method Destroy()
      requires Valid() && Releasable(alloc.counts[..], tab)
      modifies alloc`allocatedPages, alloc.counts
      ensures alloc.Valid() && SameNext(old(alloc.View()), alloc.View())
      ensures LessTable(old(alloc.counts[..]), alloc.counts[..], tab)
    {
      hide Coherent, Stored, WfAlloc, NonZero, LessFirst, Releasable, LessTable, Aligned;
      ghost var c := alloc.counts[..];
      BaseInMemory(Snap());
      CoherentShape(Snap());
      ReleaseSections();
      BaseCovered(c, alloc.counts[..], tab);
      AddressIsPage(base);
      var x := alloc.RefReleaseRange(base * PAGE_SIZE, 4);
    }
  }

  lemma RangeInMemory(t: Table, m: nat, g: Granularity, p: nat, n: nat)
    requires RangeMappable(t, m, g, p, n) && t.counted
    ensures !InRun(m, p, Span(g, n))
  {
  }

  /** All units mapped by a table that counts references. */
  lemma MapAcquired(s: Snapshot, q: Snapshot, x: Outcome<()>, b: FrameState, g: Granularity, v: nat, p: nat, n: nat)
    requires Mapped(s, q, g, v, p, n) && s.t.counted && Ready(s.t, g, v, n) == n
    requires x.Panicked? <==> FreeInRun(s.a, p, Span(g, n))
    requires x.Panicked? ==> x.code == AddRefToUnallocatedPage
    requires x.Done? ==> Acquired(s.a, b, p, Span(g, n))
    ensures MapOutcome(s, if x.Done? then Done(true) else Panicked(x.code), Snapshot(b, q.m, q.t), g, v, p, n)
  {
    hide CommitRun, Stored, OnlyTablePages, FreeInRun, Acquired;
  }

  /** Not all units mapped, or nothing to count. */
  lemma MapStopped(s: Snapshot, q: Snapshot, g: Granularity, v: nat, p: nat, c: nat, n: nat)
    requires Mapped(s, q, g, v, p, c) && Ready(s.t, g, v, n) == c && (c < n || !s.t.counted)
    ensures MapOutcome(s, Done(c == n), q, g, v, p, n)
  {
    hide CommitRun, Stored, OnlyTablePages, FreeInRun;
  }

  lemma MapBooksKept(s: Snapshot, r: Outcome<bool>, q: Snapshot, g: Granularity, v: nat, p: nat, n: nat)
    requires Coherent(s) && RangeMappable(s.t, |s.a.counts|, g, p, n) && MapOutcome(s, r, q, g, v, p, n) && r.Done?
    ensures MapKeepsBooks(s, g, v, p, n) ==> Coherent(q) && Evolves(s, q) && (!s.t.counted ==> OnlyFreshFrames(s, q))
  {
    if MapKeepsBooks(s, g, v, p, n) {
      MapEvolves(s, r, q, g, v, p, n);
    }
  }

  lemma RangeBelow(t: Table, m: nat, g: Granularity, p: nat, n: nat, i: nat)
    requires RangeMappable(t, m, g, p, n) && i <= n
    ensures p + Span(g, i) <= 0x100000
  {
    SpanMono(g, i, n);
  }

  lemma SameMappable(t: Table, u: Table, m: nat, g: Granularity, p: nat)
    requires Mappable(t, m, g, p) && u.counted == t.counted
    ensures Mappable(u, m, g, p)
  {
  }

  lemma UnitAddress(va: nat, g: Granularity, i: nat)
    ensures (va + Span(g, i) * PAGE_SIZE) / PAGE_SIZE == va / PAGE_SIZE + Span(g, i)
  {
    AddressStep(va, Span(g, i));
  }

  lemma GrantedFrame(a: FrameState, g: Granularity, x: Grant)
    requires Scannable(a, Span(g, 1)) && AllocSpec(a, Span(g, 1)) == Some(x)
    ensures x.frame < 0x100000 && Scannable(x.after, Span(g, 1))
  {
    AllocFacts(a, Span(g, 1));
  }

  lemma FirstLevelFrame(t: Table, i: nat)
    requires i < |t.l1| && |t.l1| <= 0x1000
    ensures TableFrame(t, t.base + i / 0x400)
  {
  }

  lemma PartSuperShape(t: Table, i: nat, k: nat, p: nat)
    requires i + k <= |t.l1|
    ensures var q := PartSuper(t, i, k, p); q.base == t.base && q.counted == t.counted && |q.l1| == |t.l1|
  {
  }

  lemma MaskedSuper(va: nat)
    ensures Base24(va) / SECTION_SIZE == va / PAGE_SIZE / 0x1000 * 16
    ensures va / PAGE_SIZE / 0x1000 == va / SUPERSECTION_SIZE
  {
    var q, x := va / SUPERSECTION_SIZE, va % SUPERSECTION_SIZE;
    assert va == SUPERSECTION_SIZE * q + x;
    DivMod(PAGE_SIZE, 0x1000 * q + x / PAGE_SIZE, x % PAGE_SIZE);
    DivMod(0x1000, q, x / PAGE_SIZE);
    DivMod(SECTION_SIZE, 16 * q, 0);
  }

  lemma SuperWord(pa: nat)
    ensures Base24(pa) == UnitBase(Supersection, pa / PAGE_SIZE) * PAGE_SIZE
  {
    MaskedSuper(pa);
    UnitBaseFacts(Supersection, pa / PAGE_SIZE);
  }

  lemma StoredHolds(m: seq<Row>, t: Table)
    requires Stored(m, t)
    ensures Holds(m, t) && WfDescs(t) && |t.l1| % 16 == 0
  {
  }

  lemma MaskedPage(va: nat)
    ensures Base12(va) / PAGE_SIZE == va / PAGE_SIZE && Base12(va) / SECTION_SIZE == va / SECTION_SIZE
  {
    AddressIsPage(va / PAGE_SIZE);
    AddressParts(va);
  }

  lemma MaskedSection(va: nat)
    ensures Base20(va) / SECTION_SIZE == va / SECTION_SIZE
  {
    DivMod(SECTION_SIZE, va / SECTION_SIZE, 0);
  }

  lemma PageWord(pa: nat)
    requires pa / PAGE_SIZE < 0x100000
    ensures Base12(pa) + 2 == EncEntry(EPage(pa / PAGE_SIZE))
    ensures Base12(pa) == PAGE_SIZE * (pa / PAGE_SIZE)
  {
  }

  lemma SectionWord(pa: nat)
    requires pa / PAGE_SIZE < 0x100000
    ensures WfDesc(DSection(UnitBase(Section, pa / PAGE_SIZE)))
    ensures Base20(pa) + 2 == EncDesc(DSection(UnitBase(Section, pa / PAGE_SIZE)))
    ensures Base20(pa) == SECTION_SIZE * (pa / SECTION_SIZE)
  {
    AddressParts(pa);
    UnitBaseFacts(Section, pa / PAGE_SIZE);
  }

  lemma WindowIsFree(l1: seq<Desc>, i: nat, n: nat)
    requires FreeWindow(l1, i, 1) && 0 < n <= 0x100
    ensures i < |l1| && l1[i].DFree? && SectionReady(l1[i], 0, n)
  {
  }

  lemma GroupFits(l1: seq<Desc>, q: nat, n: nat)
    requires FreeGroups(l1, q, n)
    ensures 16 * q + 16 * n <= |l1| && FreeWindow(l1, 16 * q, 16 * n)
  {
  }

  /** q is t with section i split, if it was free. */
  ghost predicate Opened(t: Table, q: Table, i: nat)
    requires i < |t.l1|
  {
    && |q.l1| == |t.l1| && q.l1[i].DSecond? && |q.l1[i].entries| == 0x100
    && (t.l1[i].DSecond? ==> q == t)
    && (t.l1[i].DFree? ==> q == SetDesc(t, i, SplitDesc(q.l1[i].frame)))
  }

  lemma SplitIsFree(p: nat)
    ensures SplitDesc(p).DSecond? && SplitDesc(p).frame == p && |SplitDesc(p).entries| == 0x100
    ensures forall j :: 0 <= j < 0x100 ==> SplitDesc(p).entries[j].EFree?
  {
  }

  /** Marking free pages of a section that has just been opened reserves them. */
  lemma OpenedPages(t: Table, q: Table, i: nat, j: nat, n: nat)
    requires i < |t.l1| && Opened(t, q, i) && (t.l1[i].DFree? || t.l1[i].DSecond?)
    requires 0 < n && j + n <= 0x100 && (t.l1[i].DSecond? ==> FreePages(t.l1[i].entries, j, n))
    ensures |q.l1| == |t.l1| && q.l1[i].DSecond? && |q.l1[i].entries| == 0x100 && FreePages(q.l1[i].entries, j, n)
    ensures ReservedPages(t, MarkPages(q, i, j, n), 0x100 * i + j, n)
  {
    hide ReservedPages, MarkPages, SplitDesc;
    MarkPagesReserves(q, i, j, n);
    if t.l1[i].DFree? {
      SplitIsFree(q.l1[i].frame);
      SplitThenReserve(t, q, MarkPages(q, i, j, n), i, 0x100 * i + j, n);
    }
  }

  lemma AllFreeNone(t: Table, lo: nat)
    ensures AllFree(t, lo, 0)
  {
  }

  lemma AddressIsPage(v: nat)
    ensures PAGE_SIZE * v / PAGE_SIZE == v && PAGE_SIZE * v / SECTION_SIZE == v / 0x100
  {
    DivMod(PAGE_SIZE, v, 0);
    AddressParts(PAGE_SIZE * v);
  }

  lemma SectionAddress(i: nat, k: nat)
    ensures (SECTION_SIZE * i + k * SECTION_SIZE) / SECTION_SIZE == i + k
  {
    DivMod(SECTION_SIZE, i + k, 0);
  }

  lemma AddressParts(address: nat)
    ensures address / SECTION_SIZE == address / PAGE_SIZE / 0x100
  {
    var v := address / PAGE_SIZE;
    var r := address % PAGE_SIZE;
    assert address == SECTION_SIZE * (v / 0x100) + (PAGE_SIZE * (v % 0x100) + r);
    DivMod(SECTION_SIZE, v / 0x100, PAGE_SIZE * (v % 0x100) + r);
  }

  lemma AddressStep(address: nat, k: nat)
    ensures (address + k * PAGE_SIZE) / PAGE_SIZE == address / PAGE_SIZE + k
    ensures (address + k * PAGE_SIZE) / SECTION_SIZE == (address / PAGE_SIZE + k) / 0x100
  {
    DivMod(PAGE_SIZE, address / PAGE_SIZE + k, address % PAGE_SIZE);
    AddressParts(address + k * PAGE_SIZE);
  }

  /** What a placed reservation leaves for the allocation that follows it. */
  lemma PlacedCodes(s: Snapshot, r: Outcome<Result<nat>>, q: Snapshot, g: Granularity, v: nat, n: nat)
    requires ReserveAtOutcome(s, r, q, g, v, n)
    ensures r == Done(Failure) <==> !Placeable(s.t, g, v, n)
    ensures r == Done(Failure) ==> q == s
    ensures r.Done? && r.value.Success? ==>
              && r.value.value == PAGE_SIZE * UnitBase(g, v) && r.value.value / PAGE_SIZE == UnitBase(g, v) <= v
              && (LeaseEffect(s.t, q.t, g, UnitBase(g, v), n) || (n == 0 && q.t == s.t))
  {
    hide AllFree, FreeWindow, ReservedPages, AllocRun, MarkSections;
    PlacedIffPlaceable(s, r, q, g, v, n);
    UnitBaseFacts(g, v);
    AddressIsPage(UnitBase(g, v));
    if n > 0 && r.Done? && r.value.Success? {
      ReserveAtLeases(s, r, q, g, v, n);
      LeaseFromBase(s.t, q.t, g, v, n);
    }
  }

  lemma CommittedPages(s: Snapshot, g: Granularity, v: nat, p: nat, ok: bool, t: Table)
    requires Coherent(s) && (ok <==> Committable(s.t, g, v)) && t == if ok then Commit(s.t, g, v, p) else s.t
    ensures forall q: nat :: TableFrame(t, q) <==> TableFrame(s.t, q)
  {
    hide TableFrame, Commit, Committable, Stored, Covered;
    CoherentDescs(s);
    if ok {
      CommitTablePages(s.t, g, v, p);
    }
  }

  lemma ElsewhereKept(m: seq<Row>, r: seq<Row>, s: Snapshot, f: nat)
    requires OnlyTablePages(m, r, s.t) && f < |s.m| == |m| && m == s.m[f := FilledRow()]
    ensures |r| == |s.m| && forall p :: 0 <= p < |r| && p != f && !TableFrame(s.t, p) ==> r[p] == s.m[p]
  {
    hide TableFrame;
  }

  lemma MarkedFrame(t: Table, i: nat, j: nat, n: nat)
    requires i < |t.l1| && t.l1[i].DSecond? && FreePages(t.l1[i].entries, j, n)
    ensures var u := MarkPages(t, i, j, n); |u.l1| == |t.l1| && u.l1[i].DSecond? && u.l1[i].frame == t.l1[i].frame
  {
  }

  lemma LeaseInTable(t: Table, q: Table, g: Granularity, v: nat, n: nat)
    requires LeaseEffect(t, q, g, v, n) || (n == 0 && q == t)
    ensures n > 0 ==> UnitBase(g, v) + Span(g, n) <= PageCount(t)
  {
  }

  lemma LeaseBound(q: Snapshot, t: Table, g: Granularity, v: nat, n: nat)
    requires Coherent(q) && LeaseEffect(t, q.t, g, v, n) && UnitBase(g, v) == v
    ensures v + Span(g, n) <= 0x100000
  {
    CoherentDescs(q);
  }

  function EntryCount(isSupervisor: bool): nat {
    if isSupervisor then FIRST_LEVEL_SUPERVISOR_ENTRIES else FIRST_LEVEL_USER_ENTRIES
  }

  /** A supervisor table covers all four gigabytes, a user table the lower two; all of them free. */
  lemma NewTableFree(base: nat, isSupervisor: bool, counted: bool)
    ensures var t := EmptyTable(base, EntryCount(isSupervisor), counted);
            PageCount(t) == (if isSupervisor then 0x100000 else 0x80000) && forall v: nat :: v < PageCount(t) ==> At(t, v) == Free
  {
    var t := EmptyTable(base, EntryCount(isSupervisor), counted);
    forall v: nat | v < PageCount(t) ensures At(t, v) == Free {
      EmptyAt(t, v);
    }
  }

  lemma ZeroNothing(m: seq<Row>, base: nat)
    ensures ZeroWords(m, base, 0)
  {
  }

  /** Clearing one more first-level word. */
  lemma ZeroNext(m: seq<Row>, base: nat, i: nat)
    requires ZeroWords(m, base, i) && i < 0x1000 && base + 4 <= |m|
    ensures InMemory(m, L1Slot(base, i)) && ZeroWords(Poke(m, L1Slot(base, i), 0), base, i + 1)
  {
    var r := Poke(m, L1Slot(base, i), 0);
    forall k: nat | k < i + 1 ensures InMemory(r, L1Slot(base, k)) && Peek(r, L1Slot(base, k)) == 0 {
      if k != i {
        SlotsDiffer(i, k);
      }
    }
  }

  lemma OutOfTable(t: Table, va: nat)
    requires va / PAGE_SIZE / 0x100 >= |t.l1|
    ensures Translate(t, va) == Failure
  {
  }

  lemma UnmappedSection(t: Table, i: nat, p: nat)
    requires i < |t.l1| && (t.l1[i].DFree? || t.l1[i].DReserved?)
    ensures !SectionMaps(t, i, p)
  {
  }

  /** Comparing masked addresses compares aligned frames. */
  lemma PhysicalParts(pa: nat)
    ensures var p := pa / PAGE_SIZE; Base20(pa) == (p - p % 0x100) * PAGE_SIZE && Base24(pa) == (p - p % 0x1000) * PAGE_SIZE
  {
    AddressParts(pa);
    MaskedSuper(pa);
  }

  lemma NothingSeen(t: Table, i: nat)
    ensures i <= |t.l1| ==> GroupSeen(t, i, 0, true, true, true)
  {
  }

  ghost predicate SameNext(a: FrameState, b: FrameState) {
    b == a.(counts := b.counts) && |b.counts| == |a.counts|
  }

  lemma SecondFrame(m: seq<Row>, t: Table, i: nat)
    requires Stored(m, t) && i < |t.l1| && t.l1[i].DSecond?
    ensures t.l1[i].frame < |m| && |t.l1[i].entries| == 0x100
  {
  }

  lemma NoEntries(c: seq<count>, es: seq<Entry>, counted: bool)
    ensures LessEntries(c, c, es, 0, counted)
  {
  }

  /** The next mapped frame of a second-level table is in use, or outside memory. */
  lemma EntryInMemory(t: Table, n: nat, i: nat, j: nat, c: seq<count>, d: seq<count>)
    requires WfCore(t, n) && t.counted && i < |t.l1| && t.l1[i].DSecond? && j < |t.l1[i].entries| && t.l1[i].entries[j].EPage?
    requires Covers(c, t.l1[i], i, true) && LessEntries(c, d, t.l1[i].entries, j, true) && |c| == n
    ensures var p := t.l1[i].entries[j].frame; p != n && (p < n ==> d[p] > One(p == 0))
  {
    ClearOfEdge(t, n, i);
    var p := t.l1[i].entries[j].frame;
    if p < n {
      EntryCovered(c, d, t.l1[i], i, true, j, p);
    }
  }

  /** The physical address of a section's own mebibyte. */
  lemma SliceAddress(d: Desc, i: nat)
    ensures d.DSection? ==> d.frame * PAGE_SIZE == PAGE_SIZE * RunStart(d, i)
    ensures d.DSuper? ==> d.frame * PAGE_SIZE + SECTION_SIZE * (i % 16) == PAGE_SIZE * RunStart(d, i)
  {
  }

  lemma BaseInMemory(s: Snapshot)
    requires Coherent(s)
    ensures s.t.base + 4 <= |s.a.counts| && s.t.base > 0
  {
  }
}
