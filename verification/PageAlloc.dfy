/** The reference-counted physical page allocator. */
module PageAllocator {
  import opened Bits
  import opened Descriptors
  import opened Outcomes
  import opened Frames
  import opened Memory

  datatype MemStats = MemStats(totalmem: nat, freemem: nat, usedmem: nat)

  class PageAlloc {
    const numPages: nat
    const counts: array<count>
    /** Physical memory: for each frame, its 1024 words. */
    const mem: array<Row>
    var allocatedPages: nat
    var next1: nat
    var next4: nat
    var next256: nat
    var next4096: nat

    /** The allocator's state as a value. */
    ghost function View(): FrameState
      reads this, counts
    {
      FrameState(counts[..], next1, next4, next256, next4096)
    }

    ghost predicate Shape() {
      numPages < 0x100000 && counts.Length == numPages && mem.Length == numPages
    }

    ghost predicate Valid()
      reads this, counts
    {
      Shape() && WfAlloc(View()) && allocatedPages == NonZero(counts[..])
    }

    /** Takes over a machine of the given size, with everything up to the end of the count table in use. */
    constructor (totalMemory: word, tableLocation: word)
      requires totalMemory >= PAGE_SIZE
      ensures Valid() && fresh(counts) && fresh(mem) && numPages == totalMemory / PAGE_SIZE
      ensures var used := tableLocation / PAGE_SIZE + (numPages + PAGE_SIZE - 1) / PAGE_SIZE;
              forall i :: 0 <= i < numPages ==> counts[i] == if i < used then 1 else 0
      ensures next1 == next4 == next256 == next4096 == 0
    {
      numPages := totalMemory / PAGE_SIZE;
      var table := new count[totalMemory / PAGE_SIZE];
      counts := table;
      mem := new Row[totalMemory / PAGE_SIZE];
      allocatedPages := 0;
      next1, next4, next256, next4096 := 0, 0, 0, 0;
      new;
      var pagesUsedForTable := (numPages + PAGE_SIZE - 1) / PAGE_SIZE;
      var firstFreePage := tableLocation / PAGE_SIZE + pagesUsedForTable;
      for i := 0 to numPages
        invariant fresh(counts) && counts == table && next1 == next4 == next256 == next4096 == 0
        invariant forall k :: 0 <= k < i ==> counts[k] == if k < firstFreePage then 1 else 0
        invariant allocatedPages == NonZero(counts[..i])
      {
        counts[i] := if i < firstFreePage then 1 else 0;
        if i < firstFreePage {
          allocatedPages := allocatedPages + 1;
        }
        assert counts[..i + 1][..i] == counts[..i];
      }
      assert counts[..numPages] == counts[..];
    }

    method GetMemStats() returns (s: MemStats)
      requires Valid()
      ensures s.totalmem == numPages * PAGE_SIZE && s.usedmem == NonZero(counts[..]) * PAGE_SIZE
      ensures s.usedmem + s.freemem == s.totalmem
    {
      NonZeroBound(counts[..]);
      s := MemStats(numPages * PAGE_SIZE, numPages * PAGE_SIZE - allocatedPages * PAGE_SIZE, allocatedPages * PAGE_SIZE);
    }

    method IsBlockFree(entry: nat, size: nat) returns (free: bool)
      requires entry + size <= counts.Length
      ensures free <==> BlockFree(counts[..], entry, size)
    {
      free := true;
      for i := 0 to size
        invariant free <==> forall k :: entry <= k < entry + i ==> counts[k] == 0
      {
        if counts[entry + i] != 0 {
          free := false;
        }
      }
    }

    method TakeBlock(entry: nat, size: nat)
      requires entry + size <= counts.Length && BlockFree(counts[..], entry, size)
      requires allocatedPages == NonZero(counts[..])
      modifies counts, this`allocatedPages
      ensures counts[..] == Take(old(counts[..]), entry, size)
      ensures allocatedPages == NonZero(counts[..]) == old(allocatedPages) + size
    {
      ghost var c := counts[..];
      assert Take(c, entry, 0) == c;
      for i := 0 to size
        invariant counts[..] == Take(c, entry, i)
        invariant allocatedPages == old(allocatedPages) && NonZero(counts[..]) == allocatedPages + i
      {
        NonZeroSet(counts[..], entry + i, 1);
        TakeStep(c, entry, i);
        counts[entry + i] := 1;
        assert counts[..] == Take(c, entry, i)[entry + i := 1];
      }
      allocatedPages := allocatedPages + size;
    }

    /** memset(frame, 0xcc, PAGE_SIZE) */
    method FillFrame(frame: nat)
      requires Shape() && frame < numPages
      modifies mem
      ensures mem[..] == old(mem[..])[frame := FilledRow()]
    {
      for i := 0 to 0x400
        invariant forall k :: 0 <= k < i ==> mem[frame][k] == FILL
        invariant forall p :: 0 <= p < numPages && p != frame ==> mem[p] == old(mem[p])
      {
        mem[frame] := mem[frame][i := FILL];
      }
      assert mem[frame] == FilledRow();
    }

    method GetCursor(size: nat) returns (x: nat)
      ensures x == Cursor(View(), size)
    {
      x := if size == 1 then next1 else if size == 4 then next4 else if size == 0x100 then next256 else next4096;
    }

    method SetCursor(size: nat, x: nat)
      modifies this`next1, this`next4, this`next256, this`next4096
      ensures View() == WithCursor(old(View()), size, x)
    {
      if size == 1 {
        next1 := x;
      } else if size == 4 {
        next4 := x;
      } else if size == 0x100 {
        next256 := x;
      } else {
        next4096 := x;
      }
    }

    /** The ring scan: takes the first free block and returns it with the cursor position after it. */
    method FindBlock(size: nat) returns (r: Outcome<(nat, nat)>, ghost frame: nat)
      requires Valid() && Scannable(View(), size)
      modifies this`allocatedPages, counts
      ensures r.Panicked? ==> r.code == OutOfMemory && AllocSpec(old(View()), size).None?
      ensures r.Done? ==> r.value.0 == frame * PAGE_SIZE && Found(old(View()), size, frame, r.value.1)
    {
      hide WfAlloc, BlockSize, Aligned, AllocSpec, Scanning, Cursor, WithCursor, BlockFree;
      var nextAlloc := GetCursor(size);
      ghost var a := View();
      frame := 0;
      ScanStart(a, size);
      ghost var d: nat := 0;
      var entry: nat := nextAlloc;
      var retval: nat := 0;
      while retval == 0
        invariant retval == 0 ==> Scanning(a, size, d, entry) && d + size <= numPages && entry + size <= numPages
        invariant retval == 0 ==> View() == a && allocatedPages == NonZero(counts[..])
        invariant retval != 0 ==> Found(a, size, frame, entry) && retval == frame * PAGE_SIZE
        decreases if retval == 0 then numPages - d + 1 else 0
      {
        var free := IsBlockFree(entry, size);
        if free {
          ScanHit(a, size, d, entry);
          TakeBlock(entry, size);
          frame, retval := entry, entry * PAGE_SIZE;
        } else {
          ScanNext(a, size, d, entry);
        }
        entry := entry + size;
        if entry >= numPages {
          entry := entry - numPages;
        }
        if entry == nextAlloc {
          return Panicked(OutOfMemory), frame;
        }
        d := d + size;
      }
      return Done((retval, entry)), frame;
    }

    /** Next fit: claims the first free block in ring order from the cursor of its size, and moves the cursor past it. */
    method Claim(size: nat) returns (r: Outcome<nat>, ghost frame: nat)
      requires Valid() && Scannable(View(), size)
      modifies this, counts
      ensures r.Panicked? <==> AllocSpec(old(View()), size).None?
      ensures r.Panicked? ==> r.code == OutOfMemory
      ensures r.Done? ==> Valid() && r.value == frame * PAGE_SIZE && AllocSpec(old(View()), size) == Some(Grant(View(), frame))
    {
      hide WfAlloc, AllocSpec, WithCursor, Aligned, BlockFree, Take, NonZero;
      ghost var a := View();
      var x;
      x, frame := FindBlock(size);
      if x.Panicked? {
        return Panicked(x.code), 0;
      }
      SetCursor(size, x.value.1);
      ClaimFacts(a, size);
      r := Done(x.value.0);
    }

    /** Claims a block and fills its first page with 0xcc. */
    method ClaimAndFill(size: nat) returns (r: Outcome<nat>, ghost frame: nat)
      requires Valid() && Scannable(View(), size)
      modifies this, counts, mem
      ensures r.Panicked? <==> AllocSpec(old(View()), size).None?
      ensures r.Panicked? ==> r.code == OutOfMemory
      ensures r.Done? ==> Valid() && AllocSpec(old(View()), size) == Some(Grant(View(), frame))
      ensures r.Done? ==> r.value == frame * PAGE_SIZE && 0 < frame < numPages
                          && mem[..] == old(mem[..])[frame := FilledRow()]
    {
      hide WfAlloc, AllocSpec, FilledRow, NonZero, Aligned;
      ghost var a := View();
      r, frame := Claim(size);
      if r.Done? {
        ClaimFacts(a, size);
        FillFrame(r.value / PAGE_SIZE);
      }
    }

    /** alloc: for a block of 1, 4, 256 or 4096 frames, the next fit from the cursor of that size, which moves past it, as
        no other cursor does. The frames of the block get one reference each, and the first is filled with 0xcc. */
    method Alloc(size: nat) returns (r: Outcome<nat>, ghost frame: nat)
      requires Valid() && (BlockSize(size) ==> Aligned(numPages, size))
      modifies this, counts, mem
      ensures size != 1 && size != 4 && size != 0x100 && size != 0x1000 ==> r == Panicked(IncompatibleParameter)
      ensures BlockSize(size) ==> (r.Panicked? <==> AllocSpec(old(View()), size).None?)
      ensures BlockSize(size) && r.Panicked? ==> r.code == OutOfMemory
      ensures size == 1 ==> Picked(old(counts[..]), 1, old(next1), r, frame)
      ensures size == 4 ==> Picked(old(counts[..]), 4, old(next4), r, frame)
      ensures size == 0x100 ==> Picked(old(counts[..]), 0x100, old(next256), r, frame)
      ensures size == 0x1000 ==> Picked(old(counts[..]), 0x1000, old(next4096), r, frame)
      ensures r.Done? ==> next1 == if size == 1 then if frame + 1 == numPages then 0 else frame + 1 else old(next1)
      ensures r.Done? ==> next4 == if size == 4 then if frame + 4 == numPages then 0 else frame + 4 else old(next4)
      ensures r.Done? ==> next256 == if size == 0x100 then if frame + 0x100 == numPages then 0 else frame + 0x100 else old(next256)
      ensures r.Done? ==> next4096 == if size == 0x1000 then if frame + 0x1000 == numPages then 0 else frame + 0x1000 else old(next4096)
      ensures r.Done? ==> forall f :: 0 <= f < numPages ==> counts[f] == if frame <= f < frame + size then 1 else old(counts[f])
      ensures r.Done? ==> 0 < frame < numPages && forall j :: 0 <= j < 0x400 ==> mem[frame][j] == 0xcccccccc
      ensures r.Done? ==> Valid() && AllocSpec(old(View()), size) == Some(Grant(View(), frame))
      ensures r.Done? ==> r.value == frame * PAGE_SIZE && mem[..] == old(mem[..])[frame := FilledRow()]
    {
      hide WfAlloc, AllocSpec, FilledRow, NonZero, Aligned, NextFit, Cursor;
      if size != 1 && size != 4 && size != 0x100 && size != 0x1000 {
        return Panicked(IncompatibleParameter), 0;
      }
      ghost var a := View();
      r, frame := ClaimAndFill(size);
      AllocMeans(a, size, r, frame, View());
      if r.Done? {
        Filled();
      }
    }

    /** The address in r is that of the next fit at the given frame; or there is none, and r is a panic. */
    static ghost predicate Picked(c: seq<count>, size: nat, cursor: nat, r: Outcome<nat>, frame: nat) {
      |c| > 0 && match r
      case Panicked(code) => code == OutOfMemory && forall f: nat :: !NextFit(c, size, cursor, f)
      case Done(address) => address == 0x1000 * frame && NextFit(c, size, cursor, frame)
    }

    /** The block at the given frame has been taken, and the scan is about to leave its cursor at next. */
    ghost predicate Found(a: FrameState, size: nat, frame: nat, next: nat)
      reads this, counts
    {
      && frame + size <= |a.counts| == numPages
      && View() == a.(counts := Take(a.counts, frame, size))
      && AllocSpec(a, size) == Some(Grant(WithCursor(View(), size, next), frame))
      && allocatedPages == NonZero(counts[..])
    }

    /** Takes one more reference; a count of 255 wraps to 0, which is the only way the bookkeeping breaks. */
    method RefAcquire(page: nat) returns (r: Outcome<nat>)
      requires Shape() && page / PAGE_SIZE != numPages
      modifies counts
      ensures var f := page / PAGE_SIZE;
              if f > numPages then r == Done(0) && counts[..] == old(counts[..])
              else if old(counts[f]) == 0 then r == Panicked(AddRefToUnallocatedPage) && counts[..] == old(counts[..])
              else r == Done(Next(old(counts[f]))) && counts[..] == old(counts[..])[f := Next(old(counts[f]))]
      ensures old(Valid()) ==> (Valid() <==> page / PAGE_SIZE > numPages || old(counts[page / PAGE_SIZE]) != 0xff)
    {
      var pageIx := page / PAGE_SIZE;
      if pageIx > numPages {
        return Done(0);
      }
      if counts[pageIx] == 0 {
        return Panicked(AddRefToUnallocatedPage);
      }
      ghost var a := View();
      NonZeroSet(a.counts, pageIx, Next(a.counts[pageIx]));
      counts[pageIx] := Next(counts[pageIx]);
      assert View() == a.(counts := a.counts[pageIx := Next(a.counts[pageIx])]);
      if WfAlloc(a) {
        SameCursors(a, View());
      }
      return Done(counts[pageIx]);
    }

    /** Gives up one reference; a frame whose last reference goes is free again. Only frame 0 must not be freed. */
    method RefRelease(page: nat) returns (r: Outcome<nat>)
      requires Shape() && allocatedPages == NonZero(counts[..]) && page / PAGE_SIZE != numPages
      modifies this`allocatedPages, counts
      ensures var f := page / PAGE_SIZE;
              if f > numPages then r == Done(0) && counts[..] == old(counts[..])
              else if old(counts[f]) == 0 then r == Panicked(ReleaseUnallocatedPage) && counts[..] == old(counts[..])
              else r == Done(old(counts[f]) - 1) && counts[..] == old(counts[..])[f := old(counts[f]) - 1]
      ensures allocatedPages == NonZero(counts[..])
      ensures old(Valid()) ==> (Valid() <==> page / PAGE_SIZE > 0 || old(counts[0]) != 1)
    {
      var pageIx := page / PAGE_SIZE;
      if pageIx > numPages {
        return Done(0);
      }
      if counts[pageIx] == 0 {
        return Panicked(ReleaseUnallocatedPage);
      }
      ghost var a := View();
      NonZeroSet(a.counts, pageIx, a.counts[pageIx] - 1);
      counts[pageIx] := counts[pageIx] - 1;
      assert View() == a.(counts := a.counts[pageIx := a.counts[pageIx] - 1]);
      if counts[pageIx] == 0 {
        allocatedPages := allocatedPages - 1;
      }
      if WfAlloc(a) {
        SameCursors(a, View());
      }
      return Done(counts[pageIx]);
    }

    /** One reference to each of the given number of pages; panics at the first one that is free. */
    method RefAcquireRange(page: nat, size: nat) returns (r: Outcome<()>)
      requires Shape() && !(page / PAGE_SIZE <= numPages < page / PAGE_SIZE + size)
      modifies counts
      ensures r == if AllInUse(old(counts[..]), page / PAGE_SIZE, size) then Done(()) else Panicked(AddRefToUnallocatedPage)
      ensures r.Done? ==> counts[..] == Bumped(old(counts[..]), page / PAGE_SIZE, size)
      ensures r.Done? && old(Valid()) ==> (Valid() <==> NoneFull(old(counts[..]), page / PAGE_SIZE, size))
    {
      hide WfAlloc, NonZero, NoneFull;
      ghost var a, p := View(), page / PAGE_SIZE;
      BumpedNext(a.counts, p, 0);
      for i := 0 to size
        invariant AllInUse(a.counts, p, i) && counts[..] == Bumped(a.counts, p, i)
      {
        PageIndex(page, i);
        BumpedNext(a.counts, p, i);
        var x := RefAcquire(page + i * PAGE_SIZE);
        if x.Panicked? {
          assert a.counts[p + i] == 0;
          return Panicked(x.code);
        }
      }
      assert View() == a.(counts := Bumped(a.counts, p, size));
      if WfAlloc(a) {
        BumpedKeeps(a, p, size);
      }
      return Done(());
    }

    /** One reference to each of the given number of pages given up. */
    method RefReleaseRange(page: nat, size: nat) returns (r: Outcome<()>)
      requires Shape() && allocatedPages == NonZero(counts[..])
      requires !(page / PAGE_SIZE <= numPages < page / PAGE_SIZE + size)
      modifies this`allocatedPages, counts
      ensures r == if AllInUse(old(counts[..]), page / PAGE_SIZE, size) then Done(()) else Panicked(ReleaseUnallocatedPage)
      ensures r.Done? ==> counts[..] == Dropped(old(counts[..]), page / PAGE_SIZE, size) && allocatedPages == NonZero(counts[..])
      ensures r.Done? && old(Valid()) ==> (Valid() <==> page / PAGE_SIZE > 0 || size == 0 || old(counts[0]) != 1)
    {
      hide WfAlloc, NonZero;
      ghost var a, p := View(), page / PAGE_SIZE;
      DroppedNext(a.counts, p, 0);
      for i := 0 to size
        invariant AllInUse(a.counts, p, i) && counts[..] == Dropped(a.counts, p, i)
        invariant allocatedPages == NonZero(counts[..])
      {
        PageIndex(page, i);
        DroppedNext(a.counts, p, i);
        var x := RefRelease(page + i * PAGE_SIZE);
        if x.Panicked? {
          assert a.counts[p + i] == 0;
          return Panicked(x.code);
        }
      }
      assert View() == a.(counts := Dropped(a.counts, p, size));
      if WfAlloc(a) {
        SameCursors(a, View());
      }
      return Done(());
    }
  }

  /** An allocation told by the counts and cursors themselves. */
  lemma AllocMeans(a: FrameState, size: nat, r: Outcome<nat>, frame: nat, b: FrameState)
    requires Scannable(a, size) && (r.Panicked? <==> AllocSpec(a, size).None?)
    requires match r
             case Panicked(code) => code == OutOfMemory
             case Done(address) => address == frame * PAGE_SIZE && AllocSpec(a, size) == Some(Grant(b, frame))
    ensures PageAlloc.Picked(a.counts, size, Cursor(a, size), r, frame)
    ensures size == 1 ==> Cursor(a, size) == a.next1
    ensures size == 4 ==> Cursor(a, size) == a.next4
    ensures size == 0x100 ==> Cursor(a, size) == a.next256
    ensures size == 0x1000 ==> Cursor(a, size) == a.next4096
    ensures var n := |a.counts|;
            r.Done? ==>
              && |b.counts| == n && frame + size <= n
              && b.next1 == (if size == 1 then if frame + 1 == n then 0 else frame + 1 else a.next1)
              && b.next4 == (if size == 4 then if frame + 4 == n then 0 else frame + 4 else a.next4)
              && b.next256 == (if size == 0x100 then if frame + 0x100 == n then 0 else frame + 0x100 else a.next256)
              && b.next4096 == (if size == 0x1000 then if frame + 0x1000 == n then 0 else frame + 0x1000 else a.next4096)
              && forall f :: 0 <= f < n ==> b.counts[f] == if frame <= f < frame + size then 1 else a.counts[f]
  {
    hide AllocSpec, NextFit, Aligned;
    AllocIsNextFit(a, size);
    if r.Done? {
      CursorMoves(a, size);
      ClaimFacts(a, size);
    }
  }

  lemma Filled()
    ensures forall j :: 0 <= j < 0x400 ==> FilledRow()[j] == 0xcccccccc
  {
  }

  lemma ClaimFacts(a: FrameState, size: nat)
    requires Scannable(a, size) && AllocSpec(a, size).Some?
    ensures var g := AllocSpec(a, size).value;
            && WfAlloc(g.after) && 0 < g.frame < |a.counts| == |g.after.counts| && g.frame + size <= |a.counts|
            && forall f :: 0 <= f < |a.counts| ==> g.after.counts[f] == if g.frame <= f < g.frame + size then 1 else a.counts[f]
  {
    AllocFacts(a, size);
  }

  lemma PageIndex(page: nat, i: nat)
    ensures (page + i * PAGE_SIZE) / PAGE_SIZE == page / PAGE_SIZE + i
  {
  }

  lemma DroppedNext(c: seq<count>, p: nat, i: nat)
    requires AllInUse(c, p, i)
    ensures p + i < |c| ==> Dropped(c, p, i)[p + i] == c[p + i]
    ensures p + i < |c| && c[p + i] > 0 ==> Dropped(c, p, i + 1) == Dropped(c, p, i)[p + i := c[p + i] - 1]
    ensures p + i >= |c| ==> Dropped(c, p, i + 1) == Dropped(c, p, i)
    ensures Dropped(c, p, 0) == c
  {
  }
}
