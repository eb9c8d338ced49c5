/** The two kinds of spinlock as a step system: any number of threads, one lock for each page table and one for the page
    allocator, taken in that order. Test-and-set and clear are single steps; a panic, which stops the machine, is not a step. */
module Locks {
  import opened Outcomes
  import opened Frames

  /** Where a thread is. A thread enters the allocator either from inside a table's section or directly. */
  datatype Pc =
    | Idle
    | SpinTable(k: nat)
    | InTable(k: nat)
    | SpinAlloc(from: Option<nat>)
    | InAlloc(from: Option<nat>, todo: seq<Write>)

  /** One write that an allocator operation makes inside its section. */
  datatype Write =
    | SetCount(f: nat, c: count)
    | SetInUse(n: int)
    | SetNext(size: nat, x: nat)

  /** The allocator's data. */
  datatype Shared = Shared(a: FrameState, inUse: int)

  datatype State = State(tableFlag: seq<bool>, allocFlag: bool, pcs: seq<Pc>, data: Shared)

  datatype Event =
    | WantTable(i: nat, k: nat)
    | TryTable(i: nat)
    | LeaveTable(i: nat)
    | WantAlloc(i: nat)
    | TryAlloc(i: nat, plan: seq<Write>)
    | DoWrite(i: nat)
    | LeaveAlloc(i: nat)

  function Apply(s: Shared, w: Write): Shared {
    match w
    case SetCount(f, c) => if f < |s.a.counts| then s.(a := s.a.(counts := s.a.counts[f := c])) else s
    case SetInUse(n) => s.(inUse := n)
    case SetNext(size, x) => s.(a := WithCursor(s.a, size, x))
  }

  function ApplyAll(s: Shared, ws: seq<Write>): Shared
    decreases |ws|
  {
    if ws == [] then s else ApplyAll(Apply(s, ws[0]), ws[1..])
  }

  /** The allocator's invariant. */
  ghost predicate Good(s: Shared) {
    WfAlloc(s.a) && s.inUse == NonZero(s.a.counts)
  }

  /** A section's writes keep the invariant when nothing comes between them. */
  ghost predicate PlanOk(s: Shared, ws: seq<Write>) {
    Good(s) ==> Good(ApplyAll(s, ws))
  }

  predicate InSection(pc: Pc, k: nat) {
    match pc
    case Idle => false
    case SpinTable(_) => false
    case InTable(j) => j == k
    case SpinAlloc(from) => from == Some(k)
    case InAlloc(from, _) => from == Some(k)
  }

  function After(from: Option<nat>): Pc {
    match from
    case None => Idle
    case Some(k) => InTable(k)
  }

  // ---------------------------------------------------------------- steps

  ghost predicate Step(s: State, e: Event, x: State) {
    e.i < |s.pcs| &&
    var pc := s.pcs[e.i];
    match e
    case WantTable(i, k) => pc.Idle? && k < |s.tableFlag| && x == s.(pcs := s.pcs[i := SpinTable(k)])
    case TryTable(i) =>
      && pc.SpinTable? && pc.k < |s.tableFlag|
      && x == if s.tableFlag[pc.k] then s
              else s.(tableFlag := s.tableFlag[pc.k := true], pcs := s.pcs[i := InTable(pc.k)])
    case LeaveTable(i) =>
      pc.InTable? && pc.k < |s.tableFlag| && x == s.(tableFlag := s.tableFlag[pc.k := false], pcs := s.pcs[i := Idle])
    case WantAlloc(i) =>
      (pc.Idle? || pc.InTable?) && x == s.(pcs := s.pcs[i := SpinAlloc(if pc.InTable? then Some(pc.k) else None)])
    case TryAlloc(i, plan) =>
      && pc.SpinAlloc?
      && if s.allocFlag then x == s
         else PlanOk(s.data, plan) && x == s.(allocFlag := true, pcs := s.pcs[i := InAlloc(pc.from, plan)])
    case DoWrite(i) =>
      && pc.InAlloc? && pc.todo != []
      && x == s.(data := Apply(s.data, pc.todo[0]), pcs := s.pcs[i := InAlloc(pc.from, pc.todo[1..])])
    case LeaveAlloc(i) => pc.InAlloc? && pc.todo == [] && x == s.(allocFlag := false, pcs := s.pcs[i := After(pc.from)])
  }

  // ---------------------------------------------------------------- the invariant

  predicate TableHeld(s: State, k: nat) {
    k < |s.tableFlag| && s.tableFlag[k]
  }

  predicate InTableSection(s: State, i: nat, k: nat) {
    i < |s.pcs| && InSection(s.pcs[i], k)
  }

  predicate InAllocSection(s: State, i: nat) {
    i < |s.pcs| && s.pcs[i].InAlloc?
  }

  ghost predicate TableMutex(s: State) {
    && (forall i: nat, k: nat :: InTableSection(s, i, k) ==> TableHeld(s, k))
    && (forall i: nat, j: nat, k: nat :: InTableSection(s, i, k) && InTableSection(s, j, k) ==> i == j)
    && (forall k: nat :: TableHeld(s, k) ==> exists i: nat :: InTableSection(s, i, k))
    && (forall i :: 0 <= i < |s.pcs| && s.pcs[i].SpinTable? ==> s.pcs[i].k < |s.tableFlag|)
  }

  ghost predicate AllocMutex(s: State) {
    && (forall i: nat :: InAllocSection(s, i) ==> s.allocFlag)
    && (forall i: nat, j: nat :: InAllocSection(s, i) && InAllocSection(s, j) ==> i == j)
    && (s.allocFlag ==> exists i: nat :: InAllocSection(s, i))
  }

  /** The data is good whenever the flag is clear, and will be once the thread inside has made its remaining writes. */
  ghost predicate DataOk(s: State) {
    && (!s.allocFlag ==> Good(s.data))
    && (forall i: nat :: InAllocSection(s, i) ==> Good(ApplyAll(s.data, s.pcs[i].todo)))
  }

  ghost predicate Inv(s: State) {
    TableMutex(s) && AllocMutex(s) && DataOk(s)
  }

  /** Only the stepping thread moves. */
  lemma OthersStay(s: State, e: Event, x: State)
    requires Step(s, e, x)
    ensures |x.pcs| == |s.pcs| && |x.tableFlag| == |s.tableFlag| && e.i < |s.pcs|
    ensures forall j: nat :: j < |s.pcs| && j != e.i ==> x.pcs[j] == s.pcs[j]
    ensures forall j: nat, k: nat :: j != e.i ==> (InTableSection(x, j, k) <==> InTableSection(s, j, k))
    ensures forall j: nat :: j != e.i ==> (InAllocSection(x, j) <==> InAllocSection(s, j))
  {
    hide PlanOk, Apply, After;
  }

  /** How the stepping thread's place and the table flags change. */
  lemma SectionsChange(s: State, e: Event, x: State)
    requires Step(s, e, x)
    ensures match e
            case TryTable(i) =>
              var k := s.pcs[i].k;
              if s.tableFlag[k] then x == s
              else !TableHeld(s, k) && (forall h: nat :: TableHeld(x, h) <==> TableHeld(s, h) || h == k)
                   && (forall h: nat :: InTableSection(x, i, h) <==> h == k)
            case LeaveTable(i) =>
              var k := s.pcs[i].k;
              (forall h: nat :: TableHeld(x, h) <==> TableHeld(s, h) && h != k)
              && (forall h: nat :: InTableSection(s, i, h) <==> h == k) && (forall h: nat :: !InTableSection(x, i, h))
            case _ =>
              (forall h: nat :: TableHeld(x, h) <==> TableHeld(s, h))
              && (forall h: nat :: InTableSection(x, e.i, h) <==> InTableSection(s, e.i, h))
  {
    hide PlanOk, Apply;
  }

  lemma TableMutexKept(s: State, e: Event, x: State)
    requires TableMutex(s) && Step(s, e, x)
    ensures TableMutex(x)
  {
    OthersStay(s, e, x);
    SectionsChange(s, e, x);
    SpinsKept(s, e, x);
    hide Step, InTableSection, TableHeld;
    assert e.LeaveTable? ==> InTableSection(s, e.i, s.pcs[e.i].k);
    forall k: nat | TableHeld(x, k) ensures exists j: nat :: InTableSection(x, j, k) {
      if TableHeld(s, k) {
        var j: nat :| InTableSection(s, j, k);
        assert InTableSection(x, j, k);
      } else {
        assert InTableSection(x, e.i, k);
      }
    }
  }

  lemma SpinsKept(s: State, e: Event, x: State)
    requires TableMutex(s) && Step(s, e, x)
    ensures forall i :: 0 <= i < |x.pcs| && x.pcs[i].SpinTable? ==> x.pcs[i].k < |x.tableFlag|
  {
    hide PlanOk, Apply;
  }

  /** How the stepping thread's place and the allocator's flag and data change. */
  lemma AllocChange(s: State, e: Event, x: State)
    requires Step(s, e, x)
    ensures match e
            case TryAlloc(i, plan) =>
              if s.allocFlag then x == s
              else x.allocFlag && !InAllocSection(s, i) && InAllocSection(x, i) && x.data == s.data
                   && x.pcs[i].todo == plan && PlanOk(s.data, plan)
            case LeaveAlloc(i) =>
              !x.allocFlag && InAllocSection(s, i) && !InAllocSection(x, i) && x.data == s.data && s.pcs[i].todo == []
            case DoWrite(i) =>
              && x.allocFlag == s.allocFlag && InAllocSection(s, i) && InAllocSection(x, i)
              && s.pcs[i].todo != [] && x.pcs[i].todo == s.pcs[i].todo[1..] && x.data == Apply(s.data, s.pcs[i].todo[0])
            case _ =>
              x.allocFlag == s.allocFlag && !InAllocSection(s, e.i) && !InAllocSection(x, e.i) && x.data == s.data
  {
    hide PlanOk, Apply;
  }

  lemma AllocMutexKept(s: State, e: Event, x: State)
    requires AllocMutex(s) && Step(s, e, x)
    ensures AllocMutex(x)
  {
    OthersStay(s, e, x);
    AllocChange(s, e, x);
    hide Step, InAllocSection, PlanOk, Apply;
    if x.allocFlag {
      if s.allocFlag {
        var j: nat :| InAllocSection(s, j);
        assert InAllocSection(x, j);
      } else {
        assert InAllocSection(x, e.i);
      }
    }
  }

  lemma DataKept(s: State, e: Event, x: State)
    requires AllocMutex(s) && DataOk(s) && Step(s, e, x)
    ensures DataOk(x)
  {
    OthersStay(s, e, x);
    AllocChange(s, e, x);
    hide Step, Good, Apply;
    forall i: nat | InAllocSection(x, i) ensures Good(ApplyAll(x.data, x.pcs[i].todo)) {
      assert i != e.i ==> InAllocSection(s, i);
    }
  }

  lemma StepKeeps(s: State, e: Event, x: State)
    requires Inv(s) && Step(s, e, x)
    ensures Inv(x)
  {
    hide Step, TableMutex, AllocMutex, DataOk;
    TableMutexKept(s, e, x);
    AllocMutexKept(s, e, x);
    DataKept(s, e, x);
  }

  // ---------------------------------------------------------------- every run

  ghost predicate Run(ss: seq<State>, es: seq<Event>) {
    |ss| == |es| + 1 && forall i :: 0 <= i < |es| ==> Step(ss[i], es[i], ss[i + 1])
  }

  ghost predicate Start(s: State) {
    && (forall i :: 0 <= i < |s.pcs| ==> s.pcs[i].Idle?)
    && (forall k :: 0 <= k < |s.tableFlag| ==> !s.tableFlag[k])
    && !s.allocFlag && Good(s.data)
  }

  lemma {:induction false} RunKeeps(ss: seq<State>, es: seq<Event>, i: nat)
    requires Run(ss, es) && Start(ss[0]) && i < |ss|
    ensures Inv(ss[i])
  {
    hide Step, Good;
    if i > 0 {
      RunKeeps(ss, es, i - 1);
      StepKeeps(ss[i - 1], es[i - 1], ss[i - 1 + 1]);
    }
  }

  /** In every run: at most one thread is inside each table's section and inside the allocator's, and the allocator's
      invariant holds whenever its flag is clear. */
  lemma LocksExclude(ss: seq<State>, es: seq<Event>, n: nat, i: nat, j: nat, k: nat)
    requires Run(ss, es) && Start(ss[0]) && n < |ss| && i != j
    ensures !(InTableSection(ss[n], i, k) && InTableSection(ss[n], j, k))
    ensures !(InAllocSection(ss[n], i) && InAllocSection(ss[n], j))
    ensures !ss[n].allocFlag ==> Good(ss[n].data)
  {
    hide Run, Good;
    RunKeeps(ss, es, n);
  }

  /** A step that is not one more turn of a spin loop. */
  ghost predicate Progress(s: State, e: Event, x: State) {
    Step(s, e, x) && x != s
  }

  /** Because locks nest only table-then-allocator, some thread can always make progress, unless all are idle. */
  lemma NoDeadlock(s: State, i: nat) returns (e: Event, x: State)
    requires Inv(s) && i < |s.pcs| && !s.pcs[i].Idle?
    ensures Progress(s, e, x)
  {
    hide Good, Apply;
    if s.allocFlag {
      var j: nat :| InAllocSection(s, j);
      e, x := InsideAllocSteps(s, j);
    } else if exists j: nat :: j < |s.pcs| && s.pcs[j].SpinAlloc? {
      var j: nat :| j < |s.pcs| && s.pcs[j].SpinAlloc?;
      e := TryAlloc(j, []);
      x := s.(allocFlag := true, pcs := s.pcs[j := InAlloc(s.pcs[j].from, [])]);
    } else if exists j: nat :: j < |s.pcs| && s.pcs[j].InTable? {
      var j: nat :| j < |s.pcs| && s.pcs[j].InTable?;
      var k := s.pcs[j].k;
      assert InTableSection(s, j, k);
      e := LeaveTable(j);
      x := s.(tableFlag := s.tableFlag[k := false], pcs := s.pcs[j := Idle]);
      assert x.pcs[j].Idle?;
    } else {
      assert !s.pcs[i].InAlloc? by { assert !InAllocSection(s, i); }
      var k := s.pcs[i].k;
      forall j: nat ensures !InTableSection(s, j, k) {
        assert j < |s.pcs| ==> !s.pcs[j].SpinAlloc? && !s.pcs[j].InTable? && !InAllocSection(s, j);
      }
      assert s.pcs[i].SpinTable? && !TableHeld(s, k);
      e := TryTable(i);
      x := s.(tableFlag := s.tableFlag[k := true], pcs := s.pcs[i := InTable(k)]);
      assert x.pcs[i].InTable?;
    }
  }

  lemma InsideAllocSteps(s: State, j: nat) returns (e: Event, x: State)
    requires j < |s.pcs| && s.pcs[j].InAlloc?
    ensures Progress(s, e, x)
  {
    hide Good, Apply;
    var pc := s.pcs[j];
    if pc.todo == [] {
      e := LeaveAlloc(j);
      x := s.(allocFlag := false, pcs := s.pcs[j := After(pc.from)]);
      assert x.pcs[j] != pc;
    } else {
      e := DoWrite(j);
      x := s.(data := Apply(s.data, pc.todo[0]), pcs := s.pcs[j := InAlloc(pc.from, pc.todo[1..])]);
      assert |x.pcs[j].todo| != |pc.todo|;
    }
  }

  // ---------------------------------------------------------------- the allocator's sections as plans of writes

  /** Counts e .. e + n set to 1. */
  function MarkPlan(e: nat, n: nat): seq<Write>
    decreases n
  {
    if n == 0 then [] else [SetCount(e, 1)] + MarkPlan(e + 1, n - 1)
  }

  /** The writes of alloc once its scan has found the block of grant g. */
  function AllocPlan(s: Shared, size: nat, g: Grant): seq<Write>
    requires |g.after.counts| > 0
  {
    MarkPlan(g.frame, size) + [SetInUse(s.inUse + size), SetNext(size, Cursor(g.after, size))]
  }

  /** The writes of ref_acquire and ref_release on a frame whose new count is c. */
  function CountPlan(s: Shared, f: nat, c: count): seq<Write> {
    [SetCount(f, c)] + if c == 0 then [SetInUse(s.inUse - 1)] else []
  }

  lemma {:induction false} ApplyMarks(s: Shared, e: nat, n: nat, rest: seq<Write>)
    requires e + n <= |s.a.counts|
    ensures ApplyAll(s, MarkPlan(e, n) + rest) == ApplyAll(s.(a := s.a.(counts := Take(s.a.counts, e, n))), rest)
    decreases n
  {
    if n == 0 {
      assert Take(s.a.counts, e, 0) == s.a.counts;
      assert MarkPlan(e, 0) + rest == rest;
    } else {
      var q := Apply(s, SetCount(e, 1));
      var ws := MarkPlan(e, n) + rest;
      assert ws[0] == SetCount(e, 1) && ws[1..] == MarkPlan(e + 1, n - 1) + rest;
      ApplyMarks(q, e + 1, n - 1, rest);
      assert Take(q.a.counts, e + 1, n - 1) == Take(s.a.counts, e, n);
    }
  }

  lemma {:induction false} TakeInUse(c: seq<count>, e: nat, n: nat)
    requires BlockFree(c, e, n)
    ensures NonZero(Take(c, e, n)) == NonZero(c) + n
  {
    hide NonZero;
    if n == 0 {
      assert Take(c, e, 0) == c;
    } else {
      TakeInUse(c, e, n - 1);
      TakeStep(c, e, n - 1);
      NonZeroSet(Take(c, e, n - 1), e + n - 1, 1);
    }
  }

  /** The writes of a successful alloc, made alone, are that allocation, and keep the invariant. */
  lemma AllocPlanOk(s: Shared, size: nat, g: Grant)
    requires Good(s) && Scannable(s.a, size) && AllocSpec(s.a, size) == Some(g)
    ensures |g.after.counts| > 0
    ensures ApplyAll(s, AllocPlan(s, size, g)) == Shared(g.after, s.inUse + size) && PlanOk(s, AllocPlan(s, size, g))
  {
    AllocFacts(s.a, size);
    TakeInUse(s.a.counts, g.frame, size);
    var ws := [SetInUse(s.inUse + size), SetNext(size, Cursor(g.after, size))];
    ApplyMarks(s, g.frame, size, ws);
    var q := s.(a := s.a.(counts := g.after.counts));
    var r := Apply(q, ws[0]);
    assert ws[1..][0] == ws[1] && ws[1..][1..] == [];
    assert ApplyAll(q, ws) == ApplyAll(r, ws[1..]) == Apply(r, ws[1]);
  }

  /** So do those of ref_acquire and ref_release, on a frame in use whose count does not wrap, when they do not free
      frame 0. */
  lemma CountPlanOk(s: Shared, f: nat, c: count)
    requires Good(s) && f < |s.a.counts| && s.a.counts[f] > 0 && (f == 0 ==> c > 0)
    ensures ApplyAll(s, CountPlan(s, f, c)).a == s.a.(counts := s.a.counts[f := c]) && PlanOk(s, CountPlan(s, f, c))
  {
    var ws := CountPlan(s, f, c);
    var q := Apply(s, ws[0]);
    NonZeroSet(s.a.counts, f, c);
    CursorsKept(s.a, q.a);
    if c == 0 {
      assert ws[1..][0] == SetInUse(s.inUse - 1) && ws[1..][1..] == [];
      assert ApplyAll(s, ws) == ApplyAll(q, ws[1..]) == Apply(q, ws[1]);
    } else {
      assert ws[1..] == [];
    }
  }

  lemma CursorsKept(a: FrameState, b: FrameState)
    requires WfAlloc(a) && |b.counts| == |a.counts| && b == a.(counts := b.counts) && b.counts[0] > 0
    ensures WfAlloc(b)
  {
    forall size | BlockSize(size) && Aligned(|b.counts|, size) ensures CursorOk(b, size) {
      assert CursorOk(a, size);
    }
  }
}
