/** The live page tables of a machine as objects: every call on one of them is a step of the world. */
module Kernel {
  import opened Outcomes
  import opened Descriptors
  import opened AddressSpace
  import opened References
  import opened Frames
  import opened Memory
  import opened Evolution
  import opened Release
  import opened Translation
  import opened Copying
  import opened ElfImage
  import opened ElfPlan
  import opened ElfMeaning
  import opened ElfLoader
  import opened PageAllocator
  import opened PageTables
  import opened Calls
  import W = World

  class Machine {
    const alloc: PageAlloc
    var tables: seq<PageTable?>
    ghost var outside: seq<nat>
    /** Every state that the machine has been in, and the events between them. */
    ghost var states: seq<W.State>
    ghost var events: seq<W.Event>

    constructor (alloc: PageAlloc)
      requires alloc.Valid() && Aligned(alloc.numPages, 4)
      ensures Valid() && this.alloc == alloc && tables == [] && states == [Now()] && events == []
      ensures outside == alloc.counts[..]
    {
      this.alloc := alloc;
      tables := [];
      outside := alloc.counts[..];
      events := [];
      new;
      states := [Now()];
    }

    ghost function Values(): seq<Option<Table>>
      reads this`tables, tables
    {
      ValuesOf(tables)
    }

    static ghost function ValuesOf(ts: seq<PageTable?>): seq<Option<Table>>
      reads ts
    {
      seq(|ts|, k requires 0 <= k < |ts| reads ts => if ts[k] == null then None else Some(ts[k].tab))
    }

    ghost function Now(): W.State
      reads this`tables, this`outside, alloc, alloc.counts, alloc.mem, tables
    {
      W.State(alloc.View(), alloc.mem[..], Values(), outside)
    }

    ghost predicate Objects()
      reads this`tables, tables
    {
      && (forall k :: 0 <= k < |tables| && tables[k] != null ==> tables[k].alloc == alloc && tables[k].Shaped())
      && (forall i, k :: 0 <= i < k < |tables| && tables[i] != null ==> tables[i] != tables[k])
    }

    /** The machine is in a good state of the world. */
    ghost predicate Sound()
      reads this`tables, this`outside, alloc, alloc.counts, alloc.mem, tables
    {
      alloc.Valid() && Aligned(alloc.numPages, 4) && Objects() && W.Inv(Now())
    }

    /** It got there by a run of the world that began without tables. */
    ghost predicate Logged(now: W.State)
      reads this`states, this`events
    {
      W.Run(states, events) && states[|events|] == now && W.Inv(states[0]) && states[0].tables == []
    }

    ghost predicate Valid()
      reads this, alloc, alloc.counts, alloc.mem, tables
    {
      Sound() && Logged(Now())
    }

    /** Adds an event to the run. */
    ghost method Record(was: W.State, e: W.Event)
      requires Sound() && Logged(was) && W.Step(was, e, Now())
      modifies this`states, this`events
      ensures Valid() && Recorded(old(states), old(events), e)
    {
      hide W.Inv, W.Step;
      states, events := states + [Now()], events + [e];
    }

    /** The run has just grown by event e, to the present state. */
    ghost predicate Recorded(ss: seq<W.State>, es: seq<W.Event>, e: W.Event)
      reads this, alloc, alloc.counts, alloc.mem, tables
    {
      states == ss + [Now()] && events == es + [e]
    }

    /** The object behind a live table of the world is valid, and sees the world's memory. */
    lemma TableValid(k: nat)
      requires Sound() && k < |tables| && tables[k] != null
      ensures tables[k].Valid() && W.Live(Now(), k) && tables[k].Snap() == W.View(Now(), k)
      ensures Coherent(tables[k].Snap()) && WfAlloc(alloc.View())
    {
      hide Coherent, WfAlloc, Aligned, W.Accounted, W.Apart;
      assert W.Live(Now(), k);
      assert Coherent(W.View(Now(), k));
    }

    /** Makes one call on one table. The call has its own effect on that table, and panics exactly as it would alone;
        every live table stays coherent and every count exact. */
    method Do(k: nat, c: Call) returns (r: Outcome<Result<nat>>)
      requires Valid() && k < |tables| && tables[k] != null && Callable(tables[k].Snap(), c)
      modifies this`states, this`events, alloc, alloc.counts, alloc.mem, tables[k]
      ensures CallEffect(old(tables[k].Snap()), c, r, tables[k].Snap())
      ensures r.Panic() == CallPanic(old(tables[k].Snap()), c)
      ensures r.Done? ==> Valid() && Recorded(old(states), old(events), W.Operate(k)) && W.Step(old(Now()), W.Operate(k), Now())
      ensures r.Done? && (!c.CallMap? || !tables[k].counted) ==> W.Unshared(old(Now()), Now())
      ensures r.Done? && !c.CallMap? ==> W.AllocateStep(old(Now()), W.Operate(k), Now())
    {
      hide Coherent, Evolves, OnlyFreshFrames, FreshCommits, WfAlloc, NonZero, Aligned, Callable, CallEffect, CallPanic, W.Inv, W.Step,
        W.TakesFresh, W.CommitsFresh, W.Unshared, W.Run, PageTable.Valid, PageTable.Snap, PageTable.Shaped;
      TableValid(k);
      ghost var w, s := Now(), tables[k].Snap();
      var t := tables[k];
      r := RunCall(t, c);
      CallPanics(s, c, r, t.Snap());
      if r.Done? {
        assert Values() == w.tables[k := Some(t.tab)];
        ValidShaped(t);
        if !c.CallMap? {
          CallCommitsFresh(s, c, r, t.Snap());
        }
        Operated(w, k);
        Record(w, W.Operate(k));
      }
    }

    static lemma ValidShaped(t: PageTable)
      requires t.Valid()
      ensures t.Shaped()
    {
    }

    /** Table k has evolved since the world was w, and nothing else has changed. */
    lemma Operated(w: W.State, k: nat)
      requires Objects() && k < |tables| && tables[k] != null && tables[k].Valid()
      requires W.Inv(w) && W.Live(w, k) && Evolves(W.View(w, k), tables[k].Snap())
      requires Values() == w.tables[k := Some(tables[k].tab)] && outside == w.outside
      ensures Sound() && W.Step(w, W.Operate(k), Now())
      ensures OnlyFreshFrames(W.View(w, k), tables[k].Snap()) ==> W.TakesFresh(w, Now(), k) && W.Unshared(w, Now())
      ensures FreshCommits(W.View(w, k), tables[k].Snap()) ==> W.CommitsFresh(w, Now(), k)
    {
      hide Coherent, Evolves, OnlyFreshFrames, FreshCommits, WfAlloc, NonZero, Aligned, W.Inv, W.Step, W.TakesFresh, W.Unshared;
      W.Operates(w, Now(), k, tables[k].tab);
      if OnlyFreshFrames(W.View(w, k), tables[k].Snap()) {
        W.AllocatingUnshared(w, W.Operate(k), Now());
      }
    }

    method Append(t: PageTable)
      requires Objects() && t.alloc == alloc && t.Shaped() && t !in tables
      modifies this`tables
      ensures Objects() && tables == old(tables) + [t] && Values() == old(Values()) + [Some(t.tab)]
    {
      tables := tables + [t];
    }

    /** Makes a table. */
    method New(isSupervisor: bool, isReferenceCounted: bool) returns (r: Outcome<nat>)
      requires Valid()
      modifies this, alloc, alloc.counts, alloc.mem
      ensures r.Panic() == if AllocSpec(old(alloc.View()), 4).None? then Some(OutOfMemory) else None
      ensures r.Done? ==> Valid() && r.value == |old(tables)| && |tables| == r.value + 1 && tables[..r.value] == old(tables)
      ensures r.Done? ==> fresh(tables[r.value]) && tables[r.value] != null
                          && tables[r.value].tab == EmptyTable(tables[r.value].base, EntryCount(isSupervisor), isReferenceCounted)
      ensures r.Done? ==> PageCount(tables[r.value].tab) == (if isSupervisor then 0x100000 else 0x80000)
                          && forall v: nat :: v < PageCount(tables[r.value].tab) ==> At(tables[r.value].tab, v) == Free
      ensures r.Done? ==> Recorded(old(states), old(events), W.Create(r.value)) && W.AllocateStep(old(Now()), W.Create(r.value), Now())
    {
      hide Coherent, WfAlloc, NonZero, Aligned, W.Inv, EmptyTable, W.CreateStep, AllocSpec, Scannable, W.Step, W.Run;
      ghost var w := Now();
      WorldAlloc();
      var t := PageTable.Create(alloc, isSupervisor, isReferenceCounted);
      if t.Panicked? {
        return Panicked(t.code);
      }
      assert Objects() && Values() == w.tables;
      Append(t.value);
      W.Creates(w, Now(), Grant(alloc.View(), t.value.base), EntryCount(isSupervisor), isReferenceCounted);
      Record(w, W.Create(|tables| - 1));
      NewTableFree(t.value.base, isSupervisor, isReferenceCounted);
      r := Done(|tables| - 1);
    }

    lemma WorldAlloc()
      requires Sound()
      ensures Scannable(alloc.View(), 4)
    {
    }

    /** Loads an image through a table. */
    method Load(k: nat, img: Image) returns (r: Outcome<LoadResult>)
      requires Valid() && k < |tables| && tables[k] != null && NoWrap(img.segments)
      requires SelfIsolated(tables[k].tab) && ImageSound(tables[k].Snap(), img)
      modifies this`states, this`events, alloc, alloc.counts, alloc.mem, tables[k]
      ensures var s := old(tables[k].Snap());
              r.Panic() == if HeadersOk(img) then LoadPanic(s.a, s.t, img.segments, |img.segments|) else None
      ensures r.Done? ==> !r.value.Aborted?
                          && (r.value.Refused? <==> !HeadersOk(img) || !AllFit(old(tables[k].tab), img.segments, |img.segments|))
      ensures r.Done? && r.value.LoadedAt? ==>
                && r.value.entry == img.entry && SegmentsLoaded(old(tables[k].Snap()), tables[k].tab, img.segments, |img.segments|)
                && AllInPlace(old(alloc.mem[..]), alloc.mem[..], tables[k].tab, img)
                && RestOfMemory(old(tables[k].Snap()), alloc.mem[..], tables[k].tab, img)
      ensures r.Done? ==> Valid() && Recorded(old(states), old(events), W.Operate(k)) && W.AllocateStep(old(Now()), W.Operate(k), Now())
    {
      hide Coherent, Evolves, OnlyFreshFrames, FreshCommits, WfAlloc, NonZero, Aligned, W.Inv, W.Step, W.TakesFresh, W.CommitsFresh, W.Run,
        W.Unshared, PageTable.Valid, PageTable.Snap, PageTable.Shaped, SelfIsolated, ImageSound, NoWrap, HeadersOk, LoadPanic, AllFit,
        SegmentsLoaded, AllInPlace, RestOfMemory;
      TableValid(k);
      ghost var w := Now();
      var t := tables[k];
      r := LoadElf(img, t);
      if r.Done? {
        assert Values() == w.tables[k := Some(t.tab)];
        ValidShaped(t);
        Operated(w, k);
        Record(w, W.Operate(k));
      }
    }

    /** Allocates a block that belongs to no table, such as a stack of the boot code. */
    method AllocateOutside(size: nat) returns (r: Outcome<nat>)
      requires Valid() && BlockSize(size) && Aligned(alloc.numPages, size)
      modifies this`outside, this`states, this`events, alloc, alloc.counts, alloc.mem
      ensures r.Panic() == if AllocSpec(old(alloc.View()), size).None? then Some(OutOfMemory) else None
      ensures r.Done? ==> AllocSpec(old(alloc.View()), size) == Some(Grant(alloc.View(), r.value / PAGE_SIZE)) && r.value % PAGE_SIZE == 0
      ensures r.Done? ==> |outside| == |old(outside)|
                          && forall f :: 0 <= f < |outside| ==> outside[f] == old(outside)[f] + One(InRun(f, r.value / PAGE_SIZE, size))
      ensures r.Done? ==> Valid() && Recorded(old(states), old(events), W.Outside) && W.AllocateStep(old(Now()), W.Outside, Now())
    {
      hide Coherent, WfAlloc, NonZero, W.Inv, W.Step, W.Run, W.Unshared, AllocSpec, Scannable, FilledRow, BlockSize, Aligned;
      ghost var w := Now();
      WorldBlock(size);
      var x, frame := alloc.Alloc(size);
      r := x;
      if x.Done? {
        AddressIsPage(frame);
        outside := seq(|w.outside|, f requires 0 <= f < |w.outside| => w.outside[f] + One(InRun(f, frame, size)));
        assert Values() == w.tables;
        W.OutsideAllocates(w, Now(), size, Grant(alloc.View(), frame));
        Record(w, W.Outside);
      }
    }

    lemma WorldBlock(size: nat)
      requires Sound() && BlockSize(size) && Aligned(alloc.numPages, size)
      ensures Scannable(alloc.View(), size) && |outside| == alloc.numPages
    {
    }

    /** Destroys a table, while the boot code still has its reference on frame 0. */
    method Delete(k: nat)
      requires Valid() && k < |tables| && tables[k] != null && |outside| > 0 && outside[0] > 0
      modifies this`tables, this`states, this`events, alloc`allocatedPages, alloc.counts
      ensures Valid() && tables == old(tables)[k := null] && LessTable(old(alloc.counts[..]), alloc.counts[..], old(tables[k].tab))
      ensures Recorded(old(states), old(events), W.Destroy(k)) && W.AllocateStep(old(Now()), W.Destroy(k), Now())
    {
      hide Coherent, WfAlloc, NonZero, Aligned, W.Inv, LessTable, Releasable, PageTable.Valid, PageTable.Snap, PageTable.Shaped, W.Run;
      TableValid(k);
      ghost var w := Now();
      W.TableReleasable(w, k);
      tables[k].Destroy();
      tables := tables[k := null];
      assert Values() == w.tables[k := None];
      W.DestroyKeeps(w, Now(), k);
      Record(w, W.Destroy(k));
    }

    /** Once all tables are deleted, if nothing else has been allocated since the start, every count is what it was. */
    lemma NothingLeaks()
      requires Valid() && W.OnlyNewTables(events, 0) && forall k :: 0 <= k < |tables| ==> tables[k] == null
      ensures alloc.counts[..] == states[0].a.counts && alloc.allocatedPages == NonZero(states[0].a.counts)
    {
      hide W.Inv, W.Step, WfAlloc, NonZero;
      W.LifecycleConserves(states, events);
    }

    /** However the machine got here, if it committed only through allocate, from a state in which no frame had two
        references, then no physical address is reached twice and no page of any table is reached at all. */
    lemma ReachesApart(i: nat, va: nat, k: nat, wa: nat)
      requires Valid() && W.AllocateRun(states, events) && W.Exclusive(states[0])
      requires i < |tables| && tables[i] != null && k < |tables| && tables[k] != null && Translate(tables[i].tab, va).Success?
      ensures Translate(tables[k].tab, wa) == Translate(tables[i].tab, va) ==> i == k && wa == va
      ensures !TableFrame(tables[k].tab, Translate(tables[i].tab, va).value / PAGE_SIZE)
    {
      hide W.Inv, W.Exclusive, W.AllocateStep, Translate, TableFrame, W.Step;
      assert W.Live(Now(), i) && W.Live(Now(), k);
      assert W.Isolated(states[0]);
      W.AllocateRunIsolated(states, events, |events|, i, va, k, wa);
    }
  }
}
