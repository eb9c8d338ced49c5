/** The physical page allocator as a value: one count per frame and one ring cursor per block size. */
module Frames {
  import opened Bits
  import opened Outcomes

  type count = x: int | 0 <= x < 0x100

  /** Incrementing a uint8_t. */
  function Next(c: count): count {
    if c == 0xff then 0 else c + 1
  }

  datatype FrameState = FrameState(counts: seq<count>, next1: nat, next4: nat, next256: nat, next4096: nat)

  /** What one allocation yields: the allocator afterwards and the first frame of the block. */
  datatype Grant = Grant(after: FrameState, frame: nat)

  /** What k allocations in a row yield. */
  datatype Grants = Grants(after: FrameState, frames: seq<nat>)

  predicate BlockSize(size: nat) {
    size == 1 || size == 4 || size == 0x100 || size == 0x1000
  }

  predicate Aligned(x: nat, size: nat) {
    (size == 4 ==> x % 4 == 0) && (size == 0x100 ==> x % 0x100 == 0) && (size == 0x1000 ==> x % 0x1000 == 0)
  }

  function Cursor(a: FrameState, size: nat): nat {
    if size == 1 then a.next1 else if size == 4 then a.next4 else if size == 0x100 then a.next256 else a.next4096
  }

  function WithCursor(a: FrameState, size: nat, x: nat): FrameState {
    if size == 1 then a.(next1 := x)
    else if size == 4 then a.(next4 := x)
    else if size == 0x100 then a.(next256 := x)
    else a.(next4096 := x)
  }

  /** The position x steps past frame 0 on a ring of n frames, x < 2 * n. */
  function Ring(x: nat, n: nat): nat {
    if x < n then x else x - n
  }

  ghost predicate BlockFree(c: seq<count>, e: nat, size: nat) {
    e + size <= |c| && forall i :: e <= i < e + size ==> c[i] == 0
  }

  /** The counts with the block of the given size at e allocated. */
  function Take(c: seq<count>, e: nat, size: nat): (r: seq<count>)
    requires e + size <= |c|
    ensures |r| == |c| && forall i :: 0 <= i < |c| ==> r[i] == if e <= i < e + size then 1 else c[i]
  {
    c[..e] + seq(size, _ => 1) + c[e + size..]
  }

  /** The first free block at ring distance d or more from the cursor; the last block of the ring does not count. */
  ghost function Scan(c: seq<count>, size: nat, cursor: nat, d: nat): Option<nat>
    decreases |c| - d
  {
    if size == 0 || d + size >= |c| then None
    else if BlockFree(c, Ring(cursor + d, |c|), size) then Some(Ring(cursor + d, |c|))
    else Scan(c, size, cursor, d + size)
  }

  ghost function AllocSpec(a: FrameState, size: nat): Option<Grant> {
    match Scan(a.counts, size, Cursor(a, size), 0)
    case None => None
    case Some(e) =>
      if e + size <= |a.counts|
      then Some(Grant(WithCursor(a.(counts := Take(a.counts, e, size)), size, Ring(e + size, |a.counts|)), e))
      else None
  }

  ghost function AllocRun(a: FrameState, size: nat, k: nat): Option<Grants> {
    if k == 0 then Some(Grants(a, []))
    else
      match AllocRun(a, size, k - 1)
      case None => None
      case Some(r) =>
        match AllocSpec(r.after, size)
        case None => None
        case Some(g) => Some(Grants(g.after, r.frames + [g.frame]))
  }

  /** The allocator's invariant: frame 0 is in use and every cursor is a block boundary inside RAM, for the block
      sizes that divide the number of frames. */
  ghost predicate WfAlloc(a: FrameState) {
    && 0 < |a.counts| < 0x100000
    && a.counts[0] > 0
    && (forall size :: BlockSize(size) && Aligned(|a.counts|, size) ==> CursorOk(a, size))
  }

  predicate CursorOk(a: FrameState, size: nat) {
    Cursor(a, size) < |a.counts| && Aligned(Cursor(a, size), size)
  }

  /** The number of frames in use. */
  function NonZero(c: seq<count>): nat {
    if c == [] then 0 else NonZero(c[..|c| - 1]) + if c[|c| - 1] > 0 then 1 else 0
  }

  // ---------------------------------------------------------------- alignment

  lemma AlignedStep(x: nat, y: nat, size: nat)
    requires BlockSize(size) && Aligned(x, size) && Aligned(y, size)
    ensures Aligned(x + y, size) && Aligned(x + size, size)
    ensures x < y ==> x + size <= y
    ensures x <= y ==> Aligned(y - x, size)
  {
    if size == 4 {
      Step4(x, y);
    } else if size == 0x100 {
      Step256(x, y);
    } else if size == 0x1000 {
      Step4096(x, y);
    }
  }

  lemma Step4(x: nat, y: nat)
    requires x % 4 == 0 && y % 4 == 0
    ensures (x + y) % 4 == 0 && (x + 4) % 4 == 0
    ensures x < y ==> x + 4 <= y
    ensures x <= y ==> (y - x) % 4 == 0
  {
    DivMod(4, x / 4 + y / 4, 0);
    DivMod(4, x / 4 + 1, 0);
    if x <= y {
      DivMod(4, y / 4 - x / 4, 0);
    }
  }

  lemma Step256(x: nat, y: nat)
    requires x % 0x100 == 0 && y % 0x100 == 0
    ensures (x + y) % 0x100 == 0 && (x + 0x100) % 0x100 == 0
    ensures x < y ==> x + 0x100 <= y
    ensures x <= y ==> (y - x) % 0x100 == 0
  {
    DivMod(0x100, x / 0x100 + y / 0x100, 0);
    DivMod(0x100, x / 0x100 + 1, 0);
    if x <= y {
      DivMod(0x100, y / 0x100 - x / 0x100, 0);
    }
  }

  lemma Step4096(x: nat, y: nat)
    requires x % 0x1000 == 0 && y % 0x1000 == 0
    ensures (x + y) % 0x1000 == 0 && (x + 0x1000) % 0x1000 == 0
    ensures x < y ==> x + 0x1000 <= y
    ensures x <= y ==> (y - x) % 0x1000 == 0
  {
    DivMod(0x1000, x / 0x1000 + y / 0x1000, 0);
    DivMod(0x1000, x / 0x1000 + 1, 0);
    if x <= y {
      DivMod(0x1000, y / 0x1000 - x / 0x1000, 0);
    }
  }

  lemma AlignedRing(x: nat, y: nat, n: nat, size: nat)
    requires BlockSize(size) && Aligned(x, size) && Aligned(y, size) && Aligned(n, size) && x < n && y < n
    ensures var e := Ring(x + y, n); Aligned(e, size) && e + size <= n
  {
    AlignedStep(x, y, size);
    if x + y >= n {
      AlignedStep(n, x + y, size);
    }
    AlignedStep(Ring(x + y, n), n, size);
  }

  // ---------------------------------------------------------------- next fit

  /** Block k of the ring scan that starts at the cursor, k a multiple of the size. */
  ghost predicate ScanFree(c: seq<count>, size: nat, cursor: nat, k: nat) {
    BlockFree(c, Ring(cursor + k, |c|), size)
  }

  /** The scan finds the first free block in ring order among all but the last one, and gives up exactly when
      none of those is free. */
  lemma {:induction false} ScanExact(c: seq<count>, size: nat, cursor: nat, d: nat)
    requires BlockSize(size) && Aligned(|c|, size) && cursor < |c| && Aligned(cursor, size) && Aligned(d, size)
    ensures match Scan(c, size, cursor, d)
            case None => forall k :: d <= k && k + size < |c| && Aligned(k, size) ==> !ScanFree(c, size, cursor, k)
            case Some(e) =>
              exists k :: d <= k && k + size < |c| && Aligned(k, size) && e == Ring(cursor + k, |c|)
                          && ScanFree(c, size, cursor, k)
                          && forall j :: d <= j < k && Aligned(j, size) ==> !ScanFree(c, size, cursor, j)
    decreases |c| - d
  {
    if d + size < |c| {
      if ScanFree(c, size, cursor, d) {
        assert d <= d && d + size < |c| && Aligned(d, size);
      } else {
        AlignedStep(d, d, size);
        ScanExact(c, size, cursor, d + size);
        forall k | d <= k && Aligned(k, size) && !(d + size <= k) ensures k == d {
          AlignedStep(d, k, size);
        }
      }
    }
  }

  /** What a caller may rely on after one allocation. */
  lemma AllocFacts(a: FrameState, size: nat)
    requires WfAlloc(a) && BlockSize(size) && Aligned(|a.counts|, size) && AllocSpec(a, size).Some?
    ensures var g := AllocSpec(a, size).value;
            && WfAlloc(g.after) && |g.after.counts| == |a.counts|
            && g.frame > 0 && Aligned(g.frame, size) && g.frame + size <= |a.counts|
            && BlockFree(a.counts, g.frame, size)
            && g.after.counts == Take(a.counts, g.frame, size)
  {
    hide BlockFree, Scan, Ring, BlockSize;
    ScanExact(a.counts, size, Cursor(a, size), 0);
    var g := AllocSpec(a, size).value;
    var n := |a.counts|;
    assert CursorOk(a, size);
    var k :| 0 <= k && k + size < n && Aligned(k, size) && g.frame == Ring(Cursor(a, size) + k, n)
             && ScanFree(a.counts, size, Cursor(a, size), k);
    AlignedRing(Cursor(a, size), k, n, size);
    FreeNotZero(a.counts, g.frame, size);
    NextCursorOk(a, size, g.frame);
  }

  /** Block k of the ring that starts at the cursor is free. */
  ghost predicate RingFree(c: seq<count>, size: nat, cursor: nat, k: nat)
    requires |c| > 0
  {
    var e := (cursor + k) % |c|;
    e + size <= |c| && forall i :: e <= i < e + size ==> c[i] == 0
  }

  /** f starts the first free block, in ring order from the cursor, of all but the block just before the cursor. */
  ghost predicate NextFit(c: seq<count>, size: nat, cursor: nat, f: nat)
    requires |c| > 0
  {
    exists k: nat :: k + size < |c| && Aligned(k, size) && f == (cursor + k) % |c| && RingFree(c, size, cursor, k)
                     && forall j: nat :: j < k && Aligned(j, size) ==> !RingFree(c, size, cursor, j)
  }

  lemma RingIsMod(x: nat, n: nat)
    requires x < 2 * n
    ensures Ring(x, n) == x % n
  {
    if x >= n {
      DivMod(n, 1, x - n);
    } else {
      DivMod(n, 0, x);
    }
  }

  lemma RingFreeIs(c: seq<count>, size: nat, cursor: nat, k: nat)
    requires BlockSize(size) && cursor < |c| && k < |c|
    ensures RingFree(c, size, cursor, k) <==> ScanFree(c, size, cursor, k)
  {
    RingIsMod(cursor + k, |c|);
  }

  /** The scan finds the next fit, and fails exactly when there is none. */
  lemma ScanIsNextFit(c: seq<count>, size: nat, cursor: nat)
    requires BlockSize(size) && Aligned(|c|, size) && cursor < |c| && Aligned(cursor, size)
    ensures match Scan(c, size, cursor, 0)
            case None => forall f: nat :: !NextFit(c, size, cursor, f)
            case Some(e) => NextFit(c, size, cursor, e)
  {
    hide BlockSize, Aligned, Scan, Ring, RingFree, ScanFree;
    AlignedZero(size);
    ScanExact(c, size, cursor, 0);
    forall k: nat | k < |c| ensures RingFree(c, size, cursor, k) <==> ScanFree(c, size, cursor, k) {
      RingFreeIs(c, size, cursor, k);
    }
    if Scan(c, size, cursor, 0).Some? {
      var e := Scan(c, size, cursor, 0).value;
      var k :| 0 <= k && k + size < |c| && Aligned(k, size) && e == Ring(cursor + k, |c|) && ScanFree(c, size, cursor, k)
               && forall j :: 0 <= j < k && Aligned(j, size) ==> !ScanFree(c, size, cursor, j);
      RingIsMod(cursor + k, |c|);
      assert e == (cursor + k) % |c| && RingFree(c, size, cursor, k);
    }
  }

  lemma AlignedZero(size: nat)
    ensures Aligned(0, size)
  {
  }

  /** An allocation finds the next fit, and fails exactly when there is none. */
  lemma AllocIsNextFit(a: FrameState, size: nat)
    requires Scannable(a, size)
    ensures match AllocSpec(a, size)
            case None => forall f: nat :: !NextFit(a.counts, size, Cursor(a, size), f)
            case Some(g) => NextFit(a.counts, size, Cursor(a, size), g.frame)
  {
    hide BlockSize, Aligned, Scan, NextFit;
    assert CursorOk(a, size);
    ScanIsNextFit(a.counts, size, Cursor(a, size));
    ScanInMemory(a, size);
  }

  lemma ScanInMemory(a: FrameState, size: nat)
    requires Scannable(a, size)
    ensures var e := Scan(a.counts, size, Cursor(a, size), 0); e.Some? ==> e.value + size <= |a.counts|
  {
    hide BlockFree, Scan, Ring;
    assert CursorOk(a, size);
    ScanExact(a.counts, size, Cursor(a, size), 0);
    var e := Scan(a.counts, size, Cursor(a, size), 0);
    if e.Some? {
      var k :| 0 <= k && k + size < |a.counts| && Aligned(k, size) && e.value == Ring(Cursor(a, size) + k, |a.counts|);
      AlignedRing(Cursor(a, size), k, |a.counts|, size);
    }
  }

  /** An allocation moves the cursor of its own size past the block, and no other cursor. */
  lemma CursorMoves(a: FrameState, size: nat)
    requires Scannable(a, size) && AllocSpec(a, size).Some?
    ensures var g, n := AllocSpec(a, size).value, |a.counts|;
            && g.after.next1 == (if size == 1 then if g.frame + 1 == n then 0 else g.frame + 1 else a.next1)
            && g.after.next4 == (if size == 4 then if g.frame + 4 == n then 0 else g.frame + 4 else a.next4)
            && g.after.next256 == (if size == 0x100 then if g.frame + 0x100 == n then 0 else g.frame + 0x100 else a.next256)
            && g.after.next4096 == (if size == 0x1000 then if g.frame + 0x1000 == n then 0 else g.frame + 0x1000 else a.next4096)
  {
    hide Scan;
    AllocFacts(a, size);
  }

  lemma FreeNotZero(c: seq<count>, e: nat, size: nat)
    requires BlockSize(size) && BlockFree(c, e, size) && c[0] > 0
    ensures e > 0
  {
  }

  /** Moving one cursor past an aligned block keeps every cursor a block boundary inside RAM. */
  lemma NextCursorOk(a: FrameState, size: nat, e: nat)
    requires WfAlloc(a) && BlockSize(size) && Aligned(|a.counts|, size)
    requires 0 < e && Aligned(e, size) && e + size <= |a.counts|
    ensures WfAlloc(WithCursor(a.(counts := Take(a.counts, e, size)), size, Ring(e + size, |a.counts|)))
  {
    var n := |a.counts|;
    AlignedStep(e, n, size);
    AlignedStep(n, n, size);
    var r := WithCursor(a.(counts := Take(a.counts, e, size)), size, Ring(e + size, n));
    forall s | BlockSize(s) && Aligned(n, s) ensures CursorOk(r, s) {
      assert CursorOk(a, s);
    }
  }

  // ---------------------------------------------------------------- counting

  lemma {:induction false} NonZeroSet(c: seq<count>, i: nat, x: count)
    requires i < |c|
    ensures NonZero(c[i := x]) + (if c[i] > 0 then 1 else 0) == NonZero(c) + if x > 0 then 1 else 0
  {
    var k := |c| - 1;
    if i == k {
      assert c[i := x][..k] == c[..k];
    } else {
      assert c[i := x][..k] == c[..k][i := x];
      NonZeroSet(c[..k], i, x);
    }
  }

  lemma {:induction false} NonZeroBound(c: seq<count>)
    ensures NonZero(c) <= |c|
  {
    if c != [] {
      NonZeroBound(c[..|c| - 1]);
    }
  }

  lemma TakeStep(c: seq<count>, e: nat, k: nat)
    requires e + k < |c|
    ensures Take(c, e, k + 1) == Take(c, e, k)[e + k := 1]
    ensures Take(c, e, 0) == c
  {
  }

  /** Counts after one reference to each of the n frames from p on is taken; frames past the end of RAM have none. */
  ghost function Bumped(c: seq<count>, p: nat, n: nat): (r: seq<count>)
    ensures |r| == |c| && forall i :: 0 <= i < |c| ==> r[i] == if p <= i < p + n then Next(c[i]) else c[i]
  {
    seq(|c|, i requires 0 <= i < |c| => if p <= i < p + n then Next(c[i]) else c[i])
  }

  /** Every one of the n frames from p on that is in memory is in use. */
  predicate AllInUse(c: seq<count>, p: nat, n: nat) {
    forall f :: p <= f < p + n && f < |c| ==> c[f] > 0
  }

  /** No count among the n frames from p on is at its maximum. */
  predicate NoneFull(c: seq<count>, p: nat, n: nat) {
    forall f :: p <= f < p + n && f < |c| ==> c[f] < 0xff
  }

  lemma BumpedNext(c: seq<count>, p: nat, i: nat)
    ensures p + i < |c| ==> Bumped(c, p, i)[p + i] == c[p + i] && Bumped(c, p, i + 1) == Bumped(c, p, i)[p + i := Next(c[p + i])]
    ensures p + i >= |c| ==> Bumped(c, p, i + 1) == Bumped(c, p, i)
    ensures Bumped(c, p, 0) == c
  {
  }

  /** Taking references leaves the number of frames in use alone exactly if no count wraps. */
  lemma {:induction false} BumpedNonZero(c: seq<count>, p: nat, n: nat)
    requires AllInUse(c, p, n)
    ensures NonZero(Bumped(c, p, n)) <= NonZero(c)
    ensures NonZero(Bumped(c, p, n)) == NonZero(c) <==> NoneFull(c, p, n)
  {
    hide NonZero, Bumped;
    if n == 0 {
      BumpedNext(c, p, 0);
    } else {
      BumpedNonZero(c, p, n - 1);
      BumpedNext(c, p, n - 1);
      var f := p + (n - 1);
      assert NoneFull(c, p, n) <==> NoneFull(c, p, n - 1) && (f < |c| ==> c[f] < 0xff);
      if f < |c| {
        NonZeroSet(Bumped(c, p, n - 1), f, Next(c[f]));
      }
    }
  }

  /** The allocator's bookkeeping survives a run of new references exactly if no count wraps. */
  lemma BumpedKeeps(a: FrameState, p: nat, n: nat)
    requires WfAlloc(a) && AllInUse(a.counts, p, n)
    ensures var b := a.(counts := Bumped(a.counts, p, n));
            WfAlloc(b) && NonZero(b.counts) == NonZero(a.counts) <==> NoneFull(a.counts, p, n)
  {
    hide NonZero;
    BumpedNonZero(a.counts, p, n);
    SameCursors(a, a.(counts := Bumped(a.counts, p, n)));
  }

  /** The allocator's invariant depends on the counts only through their number and the count of frame 0. */
  lemma SameCursors(a: FrameState, b: FrameState)
    requires |a.counts| == |b.counts| && b == a.(counts := b.counts) && WfAlloc(a)
    ensures |a.counts| > 0 && a.counts[0] > 0
    ensures WfAlloc(b) <==> b.counts[0] > 0
  {
    forall s | BlockSize(s) && Aligned(|b.counts|, s) ensures CursorOk(b, s) {
      assert CursorOk(a, s);
    }
  }

  /** A frame whose 255 references grow by one counts as free: the number of frames in use no longer matches. */
  lemma CountWraps() returns (a: FrameState, b: FrameState)
    ensures WfAlloc(a) && |a.counts| == 2 && a.counts[1] == 0xff && b == a.(counts := a.counts[1 := Next(a.counts[1])])
    ensures WfAlloc(b) && BlockFree(b.counts, 1, 1) && NonZero(b.counts) == NonZero(a.counts) - 1
  {
    a := FrameState([1, 0xff], 0, 0, 0, 0);
    b := a.(counts := a.counts[1 := 0]);
    NonZeroSet(a.counts, 1, 0);
  }

  /** Counts after one reference to each of the n frames from p on is given up. */
  ghost function Dropped(c: seq<count>, p: nat, n: nat): (r: seq<count>)
    requires forall i :: 0 <= i < |c| && p <= i < p + n ==> c[i] > 0
    ensures |r| == |c| && forall i :: 0 <= i < |c| ==> r[i] == if p <= i < p + n then c[i] - 1 else c[i]
  {
    seq(|c|, i requires 0 <= i < |c| => if p <= i < p + n then c[i] - 1 else c[i])
  }

  // ---------------------------------------------------------------- the scan as a loop

  /** The scan has come d frames round the ring, to the block at entry, without finding a free one. */
  ghost predicate Scanning(a: FrameState, size: nat, d: nat, entry: nat) {
    && d + size <= |a.counts| && Aligned(d, size) && Aligned(entry, size) && entry + size <= |a.counts|
    && entry == Ring(Cursor(a, size) + d, |a.counts|)
    && Scan(a.counts, size, Cursor(a, size), d) == Scan(a.counts, size, Cursor(a, size), 0)
  }

  ghost predicate Scannable(a: FrameState, size: nat) {
    WfAlloc(a) && BlockSize(size) && Aligned(|a.counts|, size)
  }

  lemma ScanStart(a: FrameState, size: nat)
    requires Scannable(a, size)
    ensures Scanning(a, size, 0, Cursor(a, size)) && Cursor(a, size) + size <= |a.counts| && size > 0
  {
    assert CursorOk(a, size);
    AlignedStep(Cursor(a, size), |a.counts|, size);
    AlignedStep(0, |a.counts|, size);
  }

  /** Moving to the next block brings the scan back to the cursor exactly when the ring is exhausted. */
  lemma ScanAdvance(a: FrameState, size: nat, d: nat, entry: nat)
    requires Scannable(a, size) && Scanning(a, size, d, entry)
    ensures Ring(entry + size, |a.counts|) < |a.counts|
    ensures Ring(entry + size, |a.counts|) == Cursor(a, size) <==> d + size == |a.counts|
    ensures d + size < |a.counts| ==> Ring(entry + size, |a.counts|) == Ring(Cursor(a, size) + d + size, |a.counts|)
  {
    assert CursorOk(a, size);
  }

  lemma ScanNext(a: FrameState, size: nat, d: nat, entry: nat)
    requires Scannable(a, size) && Scanning(a, size, d, entry) && !BlockFree(a.counts, entry, size)
    ensures var next := Ring(entry + size, |a.counts|);
            if next == Cursor(a, size) then AllocSpec(a, size).None?
            else Scanning(a, size, d + size, next) && d + size + size <= |a.counts| && next + size <= |a.counts|
  {
    hide BlockFree, Aligned;
    ScanAdvance(a, size, d, entry);
    AlignedStep(d, |a.counts|, size);
    AlignedStep(d + size, |a.counts|, size);
    assert CursorOk(a, size);
    if d + size < |a.counts| {
      AlignedRing(Cursor(a, size), d + size, |a.counts|, size);
    }
  }

  lemma ScanHit(a: FrameState, size: nat, d: nat, entry: nat)
    requires Scannable(a, size) && Scanning(a, size, d, entry) && BlockFree(a.counts, entry, size)
    ensures var next := Ring(entry + size, |a.counts|);
            AllocSpec(a, size) ==
            if next == Cursor(a, size) then None
            else Some(Grant(WithCursor(a.(counts := Take(a.counts, entry, size)), size, next), entry))
    ensures entry > 0
  {
    hide Aligned;
    ScanAdvance(a, size, d, entry);
    FreeNotZero(a.counts, entry, size);
  }
}
