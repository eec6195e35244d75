/**
  Sequences of calls on the address spaces, as values: what each call may do to the
  spaces, what it keeps, and what may stop the kernel.
*/
module Runs {
  import opened Common
  import opened PageTable
  import opened Space
  import opened Areas
  import opened AreaOrder
  import opened Clone
  import opened World

  /** Spaces are named by their position in the list. */
  datatype Op =
    | NewMm
    | Create(i: nat, addr: nat, len: nat, flags: nat)
    | Destroy(i: nat, addr: nat, len: nat)
    | CloneMm(dst: nat, src: nat)
    | DestroyMm(i: nat)

  /** Addresses and lengths fit in 32 bits, and the spaces named exist. */
  predicate Callable(op: Op, count: nat)
  {
    match op
    case NewMm => true
    case Create(i, addr, len, _) => i < count && addr < SPACE && len < SPACE
    case Destroy(i, addr, len) => i < count && addr < SPACE && len < SPACE
    case CloneMm(dst, src) => dst < count && src < count && dst != src
    case DestroyMm(i) => i < count
  }

  /** The spaces, the free frames, the number of live objects, and how often kmalloc has failed. */
  datatype State = State(w: seq<Space>, free: set<nat>, heap: nat, refused: nat)

  // ----- what a call may do to the spaces

  ghost predicate OnlyAt(w: seq<Space>, w': seq<Space>, i: nat)
  {
    i < |w| == |w'| && w' == w[i := w'[i]]
  }

  ghost predicate Added(w: seq<Space>, w': seq<Space>)
  {
    |w'| == |w| + 1 && w' == w + [w'[|w|]] && w'[|w|].vmas == []
  }

  ghost predicate CreatedIn(w: seq<Space>, w': seq<Space>, i: nat, addr: nat, len: nat, flags: nat)
  {
    OnlyAt(w, w', i) && addr % PAGE_SIZE == 0 && len % PAGE_SIZE == 0 && CreatedAtPlace(w[i], w'[i], addr, len, flags)
  }

  ghost predicate DestroyedIn(w: seq<Space>, w': seq<Space>, i: nat, addr: nat, len: nat)
  {
    OnlyAt(w, w', i) && Shrunk(w[i], w'[i], FirstAt(w[i].vmas, addr, 0), len / PAGE_SIZE)
  }

  ghost predicate ClonedIn(w: seq<Space>, w': seq<Space>, dst: nat, src: nat)
  {
    OnlyAt(w, w', dst) && src < |w| && Cloned(w[src].vmas, w[dst], w'[dst], |w[src].vmas|)
  }

  ghost predicate Dropped(w: seq<Space>, w': seq<Space>, i: nat)
  {
    i < |w| && w' == w[..i] + w[i + 1..]
  }

  ghost predicate Succeeds(w: seq<Space>, op: Op, w': seq<Space>)
  {
    match op
    case NewMm => Added(w, w')
    case Create(i, addr, len, flags) => if len == 0 then w' == w else CreatedIn(w, w', i, addr, len, flags)
    case Destroy(i, addr, len) => DestroyedIn(w, w', i, addr, len)
    case CloneMm(dst, src) => ClonedIn(w, w', dst, src)
    case DestroyMm(i) => Dropped(w, w', i)
  }

  /** A call does what it promises, or fails and does nothing. */
  ghost predicate Steps(w: seq<Space>, op: Op, rc: int, w': seq<Space>)
  {
    rc <= 0 && if rc == 0 then Succeeds(w, op, w') else w' == w
  }

  // ----- panics

  ghost predicate HasTopArea(s: Space)
  {
    HasTop(s.vmas, 0, |s.vmas|)
  }

  /** No space has the last page of the address space. */
  ghost predicate TopFree(w: seq<Space>)
  {
    forall i | 0 <= i < |w| :: !HasTopArea(w[i])
  }

  predicate PagesBelow(addr: nat, len: nat)
  {
    addr < SPACE && len < SPACE && addr % PAGE_SIZE == 0 && len % PAGE_SIZE == 0
  }

  /**
    What may stop the kernel: a creation or a clone that passes the last page and then
    fails, and any attempt to take out the last page.
  */
  ghost predicate MayPanic(s: State, op: Op)
  {
    Callable(op, |s.w|) &&
    match op
    case NewMm => false
    case Create(i, addr, len, _) => PassesTop(s.w[i], s.free, addr, len)
    case Destroy(i, addr, len) =>
      PagesBelow(addr, len) && len > 0 && addr + len >= SPACE && HasRun(s.w[i].vmas, addr, len / PAGE_SIZE)
    case CloneMm(dst, src) => ClonePassesTop(s.w[src].vmas, s.w[dst], s.free)
    case DestroyMm(i) => HasTopArea(s.w[i])
  }

  /** What stops the kernel unless kmalloc fails: a creation or a clone must also lack a page or a frame. */
  ghost predicate Panics(s: State, op: Op)
  {
    && MayPanic(s, op)
    && (op.Create? ==> CreatePanics(s.w[op.i], s.free, op.addr, op.len))
    && (op.CloneMm? ==> ClonePanics(s.w[op.src].vmas, s.w[op.dst], s.free))
  }

  /** The call reads through an absent leaf, unless kmalloc fails first. */
  ghost predicate Faults(s: State, op: Op)
  {
    Callable(op, |s.w|) &&
    match op
    case Create(i, addr, len, _) => CreateFaults(s.w[i], s.free, addr, len)
    case CloneMm(dst, src) => CloneFaults(s.w[src].vmas, s.w[dst], s.free)
    case _ => false
  }

  /** The call succeeds, unless kmalloc fails. */
  ghost predicate Works(s: State, op: Op)
  {
    Callable(op, |s.w|) &&
    match op
    case NewMm => s.free != {}
    case Create(i, addr, len, _) =>
      addr % PAGE_SIZE == 0 && len % PAGE_SIZE == 0 && CanCreate(s.w[i], s.free, addr, len)
    case Destroy(i, addr, len) =>
      PagesBelow(addr, len) && HasRun(s.w[i].vmas, addr, len / PAGE_SIZE) && (len == 0 || addr + len < SPACE)
    case CloneMm(dst, src) => CanAdd(s.w[dst], s.free, PagesOf(s.w[src].vmas))
    case DestroyMm(i) => !HasTopArea(s.w[i])
  }

  /** When the call succeeded, panicked or faulted; `refused` tells that kmalloc failed in it. */
  ghost predicate Answers(s: State, op: Op, r: Outcome, faulted: bool, refused: bool)
  {
    && (!refused ==> (r.Ok() <==> Works(s, op)))
    && (r.Panicked? ==> MayPanic(s, op))
    && (!refused ==> (r.Panicked? <==> Panics(s, op)))
    && (faulted <==> r.Returned? && !refused && Faults(s, op))
  }

  lemma RunHasTop(vmas: seq<Vma>, addr: nat, len: nat)
    requires PagesBelow(addr, len) && len > 0 && addr + len >= SPACE && HasRun(vmas, addr, len / PAGE_SIZE)
    ensures HasTop(vmas, 0, |vmas|)
  {
    var k := FirstAt(vmas, addr, 0);
    WholePages(len);
    RunTop(vmas, k, addr, len / PAGE_SIZE);
    var i :| k <= i < k + len / PAGE_SIZE && i < |vmas| && vmas[i].start == TOP_PAGE;
  }

  lemma StaysBelow(s: Space, free: set<nat>, addr: nat, len: nat)
    requires addr + len < SPACE
    ensures !PassesTop(s, free, addr, len)
  {
  }

  /** As long as no space has the last page, calls that stay below it do not panic. */
  lemma NeverPanics(s: State, op: Op)
    requires TopFree(s.w) && OrderSafe(s.w, op)
    ensures !MayPanic(s, op)
  {
    if Callable(op, |s.w|) {
      match op
      case NewMm =>
      case Create(i, addr, len, _) => StaysBelow(s.w[i], s.free, addr, len);
      case Destroy(i, addr, len) => if MayPanic(s, op) { RunHasTop(s.w[i].vmas, addr, len); }
      case CloneMm(dst, src) => HasTopIff(s.w[src].vmas, |s.w[src].vmas|);
      case DestroyMm(i) =>
    }
  }

  lemma CreatedTopFree(s: Space, t: Space, addr: nat, len: nat, flags: nat)
    requires !HasTopArea(s) && CreatedAtPlace(s, t, addr, len, flags)
    requires addr % PAGE_SIZE == 0 && len % PAGE_SIZE == 0 && addr + len < SPACE
    ensures !HasTopArea(t)
  {
    var k, n := PlaceFor(s.vmas, addr, len).value, len / PAGE_SIZE;
    WholePages(len);
    RunTop(t.vmas, k, addr, n);
    forall i | 0 <= i < |t.vmas|
      ensures t.vmas[i].start != TOP_PAGE
    {
      if i < k { assert t.vmas[i] == s.vmas[i]; }
      if i >= k + n { assert t.vmas[i] == s.vmas[i - n]; }
    }
  }

  lemma ShrunkTopFree(s: Space, t: Space, k: nat, n: nat)
    requires !HasTopArea(s) && Shrunk(s, t, k, n)
    ensures !HasTopArea(t)
  {
    forall i | 0 <= i < |t.vmas|
      ensures t.vmas[i].start != TOP_PAGE
    {
      assert t.vmas[i] == s.vmas[if i < k then i else i + n];
    }
  }

  lemma ClonedTopFree(a: seq<Vma>, s: Space, t: Space)
    requires !HasTop(a, 0, |a|) && s.vmas == [] && Cloned(a, s, t, |a|)
    ensures !HasTopArea(t)
  {
    assert t.vmas == t.vmas[..|a|];
    SameTop(a, t.vmas, |a|);
  }

  lemma OneTopFree(w: seq<Space>, w': seq<Space>, i: nat)
    requires TopFree(w) && OnlyAt(w, w', i) && !HasTopArea(w'[i])
    ensures TopFree(w')
  {
  }

  /** Calls that stay below the last page do not make it. */
  lemma StepTopFree(w: seq<Space>, op: Op, rc: int, w': seq<Space>)
    requires TopFree(w) && Steps(w, op, rc, w') && OrderSafe(w, op)
    ensures TopFree(w')
  {
    if rc == 0 {
      match op
      case NewMm =>
      case Create(i, addr, len, flags) =>
        if len > 0 {
          CreatedTopFree(w[i], w'[i], addr, len, flags);
          OneTopFree(w, w', i);
        }
      case Destroy(i, addr, len) =>
        ShrunkTopFree(w[i], w'[i], FirstAt(w[i].vmas, addr, 0), len / PAGE_SIZE);
        OneTopFree(w, w', i);
      case CloneMm(dst, src) =>
        ClonedTopFree(w[src].vmas, w[dst], w'[dst]);
        OneTopFree(w, w', dst);
      case DestroyMm(i) =>
    }
  }

  // ----- order

  ghost predicate AllSorted(w: seq<Space>)
  {
    forall i | 0 <= i < |w| :: Sorted(w[i].vmas)
  }

  /** New ranges end below the top of the address space, and clones go into empty spaces. */
  ghost predicate OrderSafe(w: seq<Space>, op: Op)
  {
    match op
    case Create(_, addr, len, _) => addr + len < SPACE
    case CloneMm(dst, _) => dst < |w| ==> w[dst].vmas == []
    case _ => true
  }

  lemma CloneSorted(a: seq<Vma>, s: Space, t: Space)
    requires Sorted(a) && s.vmas == [] && Cloned(a, s, t, |a|)
    ensures Sorted(t.vmas)
  {
  }

  lemma OneSorted(w: seq<Space>, w': seq<Space>, i: nat)
    requires AllSorted(w) && OnlyAt(w, w', i) && Sorted(w'[i].vmas)
    ensures AllSorted(w')
  {
  }

  lemma CreatedSorted(w: seq<Space>, free: set<nat>, w': seq<Space>, free': set<nat>, i: nat, addr: nat, len: nat,
                      flags: nat)
    requires AllInv(w, free) && AllInv(w', free') && AllSorted(w) && CreatedIn(w, w', i, addr, len, flags)
    requires 0 < len && addr + len < SPACE
    ensures AllSorted(w')
  {
    assert SpaceInv(w[i], free) && SpaceInv(w'[i], free');
    CreateSortedIff(w[i], w'[i], addr, len, flags);
    OneSorted(w, w', i);
  }

  lemma DestroyedSorted(w: seq<Space>, w': seq<Space>, i: nat, addr: nat, len: nat)
    requires AllSorted(w) && DestroyedIn(w, w', i, addr, len)
    ensures AllSorted(w')
  {
  }

  lemma ClonedSorted(w: seq<Space>, w': seq<Space>, dst: nat, src: nat)
    requires AllSorted(w) && ClonedIn(w, w', dst, src) && w[dst].vmas == []
    ensures AllSorted(w')
  {
    CloneSorted(w[src].vmas, w[dst], w'[dst]);
    OneSorted(w, w', dst);
  }

  /** Every call that stays below the top keeps every list sorted. */
  lemma StepSorted(w: seq<Space>, free: set<nat>, op: Op, rc: int, w': seq<Space>, free': set<nat>)
    requires AllInv(w, free) && AllInv(w', free') && AllSorted(w) && Steps(w, op, rc, w') && OrderSafe(w, op)
    ensures AllSorted(w')
  {
    if rc == 0 {
      match op
      case NewMm =>
      case Create(i, addr, len, flags) => if len > 0 { CreatedSorted(w, free, w', free', i, addr, len, flags); }
      case Destroy(i, addr, len) => DestroyedSorted(w, w', i, addr, len);
      case CloneMm(dst, src) => ClonedSorted(w, w', dst, src);
      case DestroyMm(i) =>
    }
  }

  // ----- runs

  /** Unless kmalloc failed in it, the call returned 0 if and only if it could. */
  ghost predicate SucceedsIff(s: State, op: Op, rc: int, t: State)
  {
    s.refused == t.refused ==> (rc == 0 <==> Works(s, op))
  }

  ghost predicate IsRun(frames: set<nat>, trace: seq<State>, ops: seq<Op>, rcs: seq<int>)
  {
    && |trace| == |ops| + 1 && |rcs| == |ops|
    && (forall k {:trigger WorldInv(trace[k].w, trace[k].free, frames, trace[k].heap)} | 0 <= k < |trace| ::
          WorldInv(trace[k].w, trace[k].free, frames, trace[k].heap))
    && (forall k {:trigger ops[k]} | 0 <= k < |ops| :: Steps(trace[k].w, ops[k], rcs[k], trace[k + 1].w))
    && (forall k {:trigger ops[k]} | 0 <= k < |ops| :: SucceedsIff(trace[k], ops[k], rcs[k], trace[k + 1]))
  }

  ghost predicate RunOrderSafe(trace: seq<State>, ops: seq<Op>)
  {
    |trace| == |ops| + 1 && forall k {:trigger ops[k]} | 0 <= k < |ops| :: OrderSafe(trace[k].w, ops[k])
  }

  /** In a run that stays below the top every list is sorted and disjoint in every state. */
  lemma {:induction false} RunSorted(frames: set<nat>, trace: seq<State>, ops: seq<Op>, rcs: seq<int>, k: nat)
    requires IsRun(frames, trace, ops, rcs) && RunOrderSafe(trace, ops) && AllSorted(trace[0].w) && k < |trace|
    ensures AllSorted(trace[k].w)
  {
    if k > 0 {
      RunSorted(frames, trace, ops, rcs, k - 1);
      RunStepSorted(frames, trace, ops, rcs, k - 1);
    }
  }

  lemma RunStepSorted(frames: set<nat>, trace: seq<State>, ops: seq<Op>, rcs: seq<int>, k: nat)
    requires IsRun(frames, trace, ops, rcs) && k < |ops| && OrderSafe(trace[k].w, ops[k]) && AllSorted(trace[k].w)
    ensures AllSorted(trace[k + 1].w)
  {
    var s, t := trace[k], trace[k + 1];
    assert WorldInv(s.w, s.free, frames, s.heap) && WorldInv(t.w, t.free, frames, t.heap);
    assert Steps(trace[k].w, ops[k], rcs[k], trace[k + 1].w);
    StepSorted(s.w, s.free, ops[k], rcs[k], t.w, t.free);
  }

  /** A run that stays below the top never makes the last page, so its next call does not panic either. */
  lemma {:induction false} RunTopFree(frames: set<nat>, trace: seq<State>, ops: seq<Op>, rcs: seq<int>, k: nat)
    requires IsRun(frames, trace, ops, rcs) && RunOrderSafe(trace, ops) && TopFree(trace[0].w) && k < |trace|
    ensures TopFree(trace[k].w) && forall op | OrderSafe(trace[k].w, op) :: !MayPanic(trace[k], op)
  {
    if k > 0 {
      RunTopFree(frames, trace, ops, rcs, k - 1);
      assert Steps(trace[k - 1].w, ops[k - 1], rcs[k - 1], trace[k - 1 + 1].w);
      StepTopFree(trace[k - 1].w, ops[k - 1], rcs[k - 1], trace[k].w);
    }
    forall op | OrderSafe(trace[k].w, op)
      ensures !MayPanic(trace[k], op)
    {
      NeverPanics(trace[k], op);
    }
  }

  // ----- faults

  /** The objects that a call makes if it succeeds: two for each page, one for a space. */
  function Makes(w: seq<Space>, op: Op): nat
  {
    match op
    case NewMm => 1
    case Create(_, _, len, _) => 2 * (len / PAGE_SIZE)
    case CloneMm(_, src) => if src < |w| then 2 * |w[src].vmas| else 0
    case _ => 0
  }

  /** There are as many frames as there would be objects after the call. */
  ghost predicate Enough(frames: set<nat>, s: State, op: Op)
  {
    s.heap + Makes(s.w, op) <= |frames|
  }

  /** With enough frames, a range that is not refused can be created. */
  lemma EnoughToCreate(s: Space, free: set<nat>, addr: nat, len: nat)
    requires VmasOk(s.vmas) && Sorted(s.vmas) && addr % PAGE_SIZE == 0 && len % PAGE_SIZE == 0
    requires 0 < len && addr + len < SPACE && 2 * (len / PAGE_SIZE) <= |free| && PlaceFor(s.vmas, addr, len).Some?
    ensures CanAdd(s, free, Range(addr, len / PAGE_SIZE))
  {
    RefusedIff(s.vmas, addr, len);
    NothingInTheWay(s.vmas, addr, len);
    FewNewSlots(s.dir, Range(addr, len / PAGE_SIZE));
  }

  lemma CreateWithoutFault(s: Space, free: set<nat>, addr: nat, len: nat)
    requires WellFormed(s.dir) && addr < SPACE && len > 0 && len % PAGE_SIZE == 0
    requires CanAdd(s, free, Range(addr, len / PAGE_SIZE))
    ensures !CreateFaults(s, free, addr, len)
  {
    OnePageAtLeast(len);
    RangeStart(addr, len / PAGE_SIZE);
    CanAddFewer(s, free, [addr / PAGE_SIZE], Range(addr, len / PAGE_SIZE));
    assert [] + [addr / PAGE_SIZE] == [addr / PAGE_SIZE];
    if CreateFaults(s, free, addr, len) { FaultStops(s, free, [], addr / PAGE_SIZE); }
  }

  lemma EnoughToClone(a: seq<Vma>, s: Space, free: set<nat>)
    requires s.vmas == [] && 2 * |a| <= |free|
    ensures CanAdd(s, free, PagesOf(a))
  {
    FewNewSlots(s.dir, PagesOf(a));
  }

  /** With sorted lists and enough frames, a call that stays below the top does not fault. */
  lemma NeverFaults(frames: set<nat>, s: State, op: Op)
    requires WorldInv(s.w, s.free, frames, s.heap) && AllSorted(s.w) && OrderSafe(s.w, op) && Enough(frames, s, op)
    ensures !Faults(s, op)
  {
    FramesLeft(s.w, s.free, frames, s.heap);
    if Faults(s, op) {
      match op
      case Create(i, addr, len, _) =>
        assert SpaceInv(s.w[i], s.free);
        EnoughToCreate(s.w[i], s.free, addr, len);
        CreateWithoutFault(s.w[i], s.free, addr, len);
      case CloneMm(dst, src) =>
        assert SpaceInv(s.w[dst], s.free) && SpaceInv(s.w[src], s.free);
        EnoughToClone(s.w[src].vmas, s.w[dst], s.free);
        CloneWithoutFault(s.w[src].vmas, s.w[dst], s.free);
      case _ =>
    }
  }

  /**
    A run that stays below the top reads through no absent leaf as long as there are at
    least as many frames as live objects.
  */
  lemma RunFaultFree(frames: set<nat>, trace: seq<State>, ops: seq<Op>, rcs: seq<int>, k: nat)
    requires IsRun(frames, trace, ops, rcs) && RunOrderSafe(trace, ops) && AllSorted(trace[0].w) && k < |trace|
    ensures forall op | OrderSafe(trace[k].w, op) && Enough(frames, trace[k], op) :: !Faults(trace[k], op)
  {
    RunSorted(frames, trace, ops, rcs, k);
    var s := trace[k];
    assert WorldInv(trace[k].w, trace[k].free, frames, trace[k].heap);
    forall op | OrderSafe(s.w, op) && Enough(frames, s, op)
      ensures !Faults(s, op)
    {
      NeverFaults(frames, s, op);
    }
  }

  // ----- how a run ends

  /** A first call, and then a run. */
  lemma RunStarts(frames: set<nat>, s: State, op: Op, rc: int, trace: seq<State>, ops: seq<Op>, rcs: seq<int>)
    requires IsRun(frames, trace, ops, rcs) && WorldInv(s.w, s.free, frames, s.heap) && Steps(s.w, op, rc, trace[0].w)
    requires SucceedsIff(s, op, rc, trace[0])
    ensures IsRun(frames, [s] + trace, [op] + ops, [rc] + rcs)
  {
    var tr, os := [s] + trace, [op] + ops;
    forall k | 0 <= k < |os|
      ensures Steps(tr[k].w, os[k], ([rc] + rcs)[k], tr[k + 1].w)
      ensures SucceedsIff(tr[k], os[k], ([rc] + rcs)[k], tr[k + 1])
    {
      if k > 0 {
        assert Steps(trace[k - 1].w, ops[k - 1], rcs[k - 1], trace[k - 1 + 1].w);
        assert SucceedsIff(trace[k - 1], ops[k - 1], rcs[k - 1], trace[k - 1 + 1]);
      }
    }
    forall k | 0 <= k < |tr|
      ensures WorldInv(tr[k].w, tr[k].free, frames, tr[k].heap)
    {
      if k > 0 { assert WorldInv(trace[k - 1].w, trace[k - 1].free, frames, trace[k - 1].heap); }
    }
  }

  /** All calls were made, or one panicked, or one read through an absent leaf. */
  datatype End = Finished | Panic | Fault

  /**
    What came of the calls `ops` from a state: a run of all of them, or of those before
    one that panicked or faulted.
  */
  ghost predicate RunsTo(frames: set<nat>, s: State, ops: seq<Op>, rcs: seq<int>, end: End, trace: seq<State>)
  {
    && |rcs| <= |ops| && (end == Finished <==> |rcs| == |ops|)
    && IsRun(frames, trace, ops[..|rcs|], rcs) && trace[0] == s
    && (end == Panic ==> MayPanic(trace[|rcs|], ops[|rcs|]))
    && (end == Fault ==> Faults(trace[|rcs|], ops[|rcs|]))
  }

  lemma RunsToNothing(frames: set<nat>, s: State, ops: seq<Op>, end: End)
    requires WorldInv(s.w, s.free, frames, s.heap) && (end == Finished <==> ops == [])
    requires end == Panic ==> MayPanic(s, ops[0])
    requires end == Fault ==> Faults(s, ops[0])
    ensures RunsTo(frames, s, ops, [], end, [s])
  {
  }

  lemma RunsOn(frames: set<nat>, s: State, rc: int, t: State, ops: seq<Op>, rcs: seq<int>, end: End,
               trace: seq<State>)
    requires ops != [] && WorldInv(s.w, s.free, frames, s.heap) && Steps(s.w, ops[0], rc, t.w)
    requires SucceedsIff(s, ops[0], rc, t)
    requires RunsTo(frames, t, ops[1..], rcs, end, trace)
    ensures RunsTo(frames, s, ops, [rc] + rcs, end, [s] + trace)
    ensures end == Finished ==> ([s] + trace)[|ops|] == trace[|ops[1..]|]
  {
    RunStarts(frames, s, ops[0], rc, trace, ops[1..][..|rcs|], rcs);
    assert [ops[0]] + ops[1..][..|rcs|] == ops[..|rcs| + 1];
  }

  /**
    Calls that stay below the top, with enough frames each time, are all made: nothing
    panics and nothing faults.
  */
  lemma SafeRunsFinish(frames: set<nat>, s: State, ops: seq<Op>, rcs: seq<int>, end: End, trace: seq<State>)
    requires RunsTo(frames, s, ops, rcs, end, trace) && TopFree(s.w) && AllSorted(s.w)
    requires forall k | 0 <= k <= |rcs| && k < |ops| ::
               OrderSafe(trace[k].w, ops[k]) && Enough(frames, trace[k], ops[k])
    ensures end == Finished
  {
    var n := |rcs|;
    RunTopFree(frames, trace, ops[..n], rcs, n);
    RunFaultFree(frames, trace, ops[..n], rcs, n);
  }
}
