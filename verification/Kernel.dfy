/**
  Every run of the address-space routines: any number of spaces over one frame pool,
  created, grown, shrunk, cloned and torn down in any order, each call succeeding or
  failing as it may, until the kernel stops.
*/
module Kernel {
  import opened Common
  import opened FramePool
  import opened PageTable
  import opened Space
  import opened Areas
  import opened AddressSpace
  import opened Clone
  import opened World
  import opened Runs

  ghost function ViewsOf(mms: seq<Mm>): (r: seq<Space>)
    reads mms, set m | m in mms :: m.pt
    ensures |r| == |mms| && forall i | 0 <= i < |mms| :: r[i] == mms[i].View()
  {
    seq(|mms|, i requires 0 <= i < |mms| reads mms, set m | m in mms :: m.pt => mms[i].View())
  }

  ghost predicate DistinctMms(mms: seq<Mm>)
  {
    forall i, j | 0 <= i < |mms| && 0 <= j < |mms| && i != j :: mms[i] != mms[j] && mms[i].pt != mms[j].pt
  }

  /** When one space changed, one view changed. */
  lemma OneViewChanged(mms: seq<Mm>, w: seq<Space>, i: nat)
    requires i < |mms| == |w| && forall j | 0 <= j < |mms| && j != i :: mms[j].View() == w[j]
    ensures ViewsOf(mms) == w[i := mms[i].View()] && OnlyAt(w, ViewsOf(mms), i)
    ensures mms[i].View() == w[i] ==> ViewsOf(mms) == w
  {
  }

  lemma NoViewChanged(mms: seq<Mm>, w: seq<Space>)
    requires |mms| == |w| && forall j | 0 <= j < |mms| :: mms[j].View() == w[j]
    ensures ViewsOf(mms) == w
  {
  }

  lemma ViewsAdded(mms: seq<Mm>, w: seq<Space>, mm: Mm)
    requires |mms| == |w| && (forall j | 0 <= j < |mms| :: mms[j].View() == w[j]) && mm.vmas == []
    ensures ViewsOf(mms + [mm]) == w + [mm.View()] && Added(w, ViewsOf(mms + [mm]))
  {
  }

  lemma DistinctAdded(mms: seq<Mm>, mm: Mm)
    requires DistinctMms(mms) && forall m | m in mms :: m != mm && m.pt != mm.pt
    ensures DistinctMms(mms + [mm])
  {
    var next := mms + [mm];
    forall i, j | 0 <= i < |next| && 0 <= j < |next| && i != j
      ensures next[i] != next[j] && next[i].pt != next[j].pt
    {
      if i < |mms| { assert next[i] in mms; }
      if j < |mms| { assert next[j] in mms; }
    }
  }

  lemma ViewsDropped(mms: seq<Mm>, w: seq<Space>, i: nat)
    requires i < |mms| == |w| && DistinctMms(mms) && forall j | 0 <= j < |mms| && j != i :: mms[j].View() == w[j]
    ensures ViewsOf(mms[..i] + mms[i + 1..]) == w[..i] + w[i + 1..] && DistinctMms(mms[..i] + mms[i + 1..])
    ensures forall m | m in mms[..i] + mms[i + 1..] :: m in mms && m != mms[i] && m.pt != mms[i].pt
  {
  }

  // One call, for a space that goes to the end of w or stands at position i of w.

  method NewAt(pool: Pool, ghost w: seq<Space>, ghost frames: set<nat>) returns (mm: Mm?)
    requires pool.Valid() && WorldInv(w, pool.free, frames, pool.heap)
    modifies pool`free, pool`heap, pool`refused
    ensures pool.Valid()
    ensures pool.refused == old(pool.refused) ==> (mm == null <==> old(pool.free) == {})
    ensures mm == null ==> WorldInv(w, pool.free, frames, pool.heap)
    ensures mm != null ==> fresh(mm) && fresh(mm.pt) && mm.vmas == [] && !mm.pt.faulted
    ensures mm != null ==> WorldInv(w + [mm.View()], pool.free, frames, pool.heap)
  {
    ghost var free, heap := pool.free, pool.heap;
    mm := Mm.New(pool);
    if mm != null { Add(w, free, frames, heap, mm.View(), pool.free); }
  }

  method CreateAt(mm: Mm, pool: Pool, addr: nat, len: nat, flags: nat,
                  ghost w: seq<Space>, ghost i: nat, ghost frames: set<nat>)
    returns (r: Outcome, faulted: bool)
    requires pool.Valid() && WorldInv(w, pool.free, frames, pool.heap) && i < |w| && w[i] == mm.View()
    requires addr < SPACE && len < SPACE && !mm.pt.faulted
    modifies mm, mm.pt, pool`free, pool`heap, pool`refused
    ensures Answers(State(w, old(pool.free), old(pool.heap), old(pool.refused)), Create(i, addr, len, flags), r,
                    faulted, pool.refused != old(pool.refused))
    ensures r.Returned? ==> faulted == mm.pt.faulted
    ensures r.Returned? ==> pool.Valid() && WorldInv(w[i := mm.View()], pool.free, frames, pool.heap) && r.rc <= 0
    ensures r.Ok() && len > 0 ==> CreatedIn(w, w[i := mm.View()], i, addr, len, flags)
    ensures r.Failed() || (r.Ok() && len == 0) ==> mm.View() == w[i]
  {
    HeapCovers(w, i);
    ghost var free, heap := pool.free, pool.heap;
    r := mm.CreateUvm(pool, addr, len, flags);
    faulted := r.Returned? && mm.pt.faulted;
    if r.Returned? { Replace(w, free, frames, heap, i, mm.View(), pool.free, pool.heap); }
  }

  method DestroyAt(mm: Mm, pool: Pool, addr: nat, len: nat, ghost w: seq<Space>, ghost i: nat, ghost frames: set<nat>)
    returns (r: Outcome)
    requires pool.Valid() && WorldInv(w, pool.free, frames, pool.heap) && i < |w| && w[i] == mm.View()
    requires addr < SPACE && len < SPACE
    modifies mm, mm.pt, pool`free, pool`heap
    ensures Answers(State(w, old(pool.free), old(pool.heap), old(pool.refused)), Destroy(i, addr, len), r, false, false)
    ensures r.Returned? ==> pool.Valid() && WorldInv(w[i := mm.View()], pool.free, frames, pool.heap) && r.rc <= 0
    ensures r.Returned? ==> mm.pt.faulted == old(mm.pt.faulted)
    ensures r.Ok() ==> DestroyedIn(w, w[i := mm.View()], i, addr, len)
    ensures r.Failed() ==> mm.View() == w[i]
  {
    HeapCovers(w, i);
    ghost var free, heap := pool.free, pool.heap;
    r := mm.DestroyUvm(pool, addr, len);
    if r.Returned? { Replace(w, free, frames, heap, i, mm.View(), pool.free, pool.heap); }
  }

  method CloneAt(dst: Mm, src: Mm, pool: Pool, ghost w: seq<Space>, ghost i: nat, ghost j: nat, ghost frames: set<nat>)
    returns (r: Outcome, faulted: bool)
    requires pool.Valid() && pool.HasMemory() && !dst.pt.faulted && WorldInv(w, pool.free, frames, pool.heap)
    requires i < |w| && j < |w| && i != j && w[i] == dst.View() && w[j] == src.View() && dst != src && dst.pt != src.pt
    modifies dst, dst.pt, pool
    ensures Answers(State(w, old(pool.free), old(pool.heap), old(pool.refused)), CloneMm(i, j), r, faulted,
                    pool.refused != old(pool.refused))
    ensures r.Returned? ==> faulted == dst.pt.faulted
    ensures r.Returned? ==> pool.Valid() && pool.HasMemory() && r.rc <= 0
    ensures r.Returned? ==> WorldInv(w[i := dst.View()], pool.free, frames, pool.heap)
    ensures r.Ok() ==> ClonedIn(w, w[i := dst.View()], i, j)
    ensures r.Failed() ==> dst.View() == w[i]
  {
    HeapCovers(w, i);
    HeapCovers(w, j);
    ghost var free, heap := pool.free, pool.heap;
    r := MmClone(dst, src, pool);
    faulted := r.Returned? && dst.pt.faulted;
    if r.Returned? { Replace(w, free, frames, heap, i, dst.View(), pool.free, pool.heap); }
  }

  method DropAt(mm: Mm, pool: Pool, ghost w: seq<Space>, ghost i: nat, ghost frames: set<nat>)
    returns (panicked: bool)
    requires pool.Valid() && WorldInv(w, pool.free, frames, pool.heap) && i < |w| && w[i] == mm.View()
    modifies mm, mm.pt, pool`free, pool`heap
    ensures panicked <==> HasTopArea(w[i])
    ensures !panicked ==> pool.Valid() && WorldInv(w[..i] + w[i + 1..], pool.free, frames, pool.heap)
  {
    HeapCovers(w, i);
    ghost var free, heap := pool.free, pool.heap;
    panicked := mm.Destroy(pool);
    if !panicked { Drop(w, free, frames, heap, i, pool.free); }
  }

  class System {
    var mms: seq<Mm>
    const pool: Pool
    ghost const frames: set<nat>

    constructor (free: set<nat>)
      requires forall f | f in free :: IsFrame(f)
      ensures Inv() && mms == [] && frames == free && fresh(pool)
    {
      mms, frames := [], free;
      pool := new Pool(free);
    }

    ghost function Now(): State
      reads this, pool, mms, set m | m in mms :: m.pt
    {
      State(ViewsOf(mms), pool.free, pool.heap, pool.refused)
    }

    ghost predicate Inv()
      reads this, pool, mms, set m | m in mms :: m.pt
    {
      && DistinctMms(mms) && (forall m | m in mms :: !m.pt.faulted) && pool.Valid() && pool.HasMemory()
      && WorldInv(ViewsOf(mms), pool.free, frames, pool.heap)
    }

    method DoNew() returns (rc: int)
      requires Inv()
      modifies this, pool
      ensures Inv()
      ensures rc == 0 || rc == -ENOMEM
      ensures Answers(old(Now()), NewMm, Returned(rc), false, pool.refused != old(pool.refused))
      ensures rc < 0 ==> mms == old(mms) && ViewsOf(mms) == old(ViewsOf(mms))
      ensures rc == 0 ==> Added(old(ViewsOf(mms)), ViewsOf(mms))
      ensures forall m | m in mms :: m in old(mms) || (fresh(m) && fresh(m.pt))
    {
      ghost var w := ViewsOf(mms);
      var mm := NewAt(pool, w, frames);
      if mm == null {
        NoViewChanged(mms, w);
        return -ENOMEM;
      }
      var m: Mm := mm;
      DistinctAdded(mms, m);
      mms := mms + [m];
      ViewsAdded(old(mms), w, m);
      rc := 0;
    }

    method DoCreate(i: nat, addr: nat, len: nat, flags: nat) returns (r: Outcome, faulted: bool)
      requires Inv() && i < |mms| && addr < SPACE && len < SPACE
      modifies mms[i], mms[i].pt, pool
      ensures Answers(old(Now()), Create(i, addr, len, flags), r, faulted, pool.refused != old(pool.refused))
      ensures r.Returned? && !faulted ==>
                Inv() && Steps(old(ViewsOf(mms)), Create(i, addr, len, flags), r.rc, ViewsOf(mms))
    {
      ghost var w := ViewsOf(mms);
      r, faulted := CreateAt(mms[i], pool, addr, len, flags, w, i, frames);
      OneViewChanged(mms, w, i);
    }

    method DoDestroy(i: nat, addr: nat, len: nat) returns (r: Outcome)
      requires Inv() && i < |mms| && addr < SPACE && len < SPACE
      modifies mms[i], mms[i].pt, pool
      ensures Answers(old(Now()), Destroy(i, addr, len), r, false, false) && pool.refused == old(pool.refused)
      ensures r.Returned? ==> Inv() && Steps(old(ViewsOf(mms)), Destroy(i, addr, len), r.rc, ViewsOf(mms))
    {
      ghost var w := ViewsOf(mms);
      r := DestroyAt(mms[i], pool, addr, len, w, i, frames);
      OneViewChanged(mms, w, i);
    }

    method DoClone(dst: nat, src: nat) returns (r: Outcome, faulted: bool)
      requires Inv() && dst < |mms| && src < |mms| && dst != src
      modifies mms[dst], mms[dst].pt, pool
      ensures Answers(old(Now()), CloneMm(dst, src), r, faulted, pool.refused != old(pool.refused))
      ensures r.Returned? && !faulted ==>
                Inv() && Steps(old(ViewsOf(mms)), CloneMm(dst, src), r.rc, ViewsOf(mms))
    {
      ghost var w := ViewsOf(mms);
      r, faulted := CloneAt(mms[dst], mms[src], pool, w, dst, src, frames);
      assert forall j | 0 <= j < |mms| && j != dst :: mms[j].View() == w[j] && !mms[j].pt.faulted;
      OneViewChanged(mms, w, dst);
    }

    method DoDestroyMm(i: nat) returns (panicked: bool)
      requires Inv() && i < |mms|
      modifies this, mms[i], mms[i].pt, pool
      ensures Answers(old(Now()), DestroyMm(i), if panicked then Panicked else Returned(0), false, false)
      ensures pool.refused == old(pool.refused)
      ensures !panicked ==> Inv() && Dropped(old(ViewsOf(mms)), ViewsOf(mms), i)
      ensures forall m | m in mms :: m in old(mms)
    {
      ghost var w := ViewsOf(mms);
      panicked := DropAt(mms[i], pool, w, i, frames);
      if panicked { return; }
      mms := mms[..i] + mms[i + 1..];
      ViewsDropped(old(mms), w, i);
    }

    /**
      One call; a call that names a space that does not exist fails. `faulted` tells that
      the call has read through an absent leaf, after which nothing is promised.
    */
    method Step(op: Op) returns (r: Outcome, faulted: bool)
      requires Inv()
      modifies this, pool, mms, set m | m in mms :: m.pt
      ensures Answers(old(Now()), op, r, faulted, pool.refused != old(pool.refused))
      ensures r.Returned? && !faulted ==> Inv() && Steps(old(ViewsOf(mms)), op, r.rc, ViewsOf(mms))
      ensures forall m | m in mms :: m in old(mms) || (fresh(m) && fresh(m.pt))
    {
      faulted := false;
      if !Callable(op, |mms|) { return Returned(-EINVAL), false; }
      match op
      case NewMm =>
        var rc := DoNew();
        r := Returned(rc);
      case Create(i, addr, len, flags) => r, faulted := DoCreate(i, addr, len, flags);
      case Destroy(i, addr, len) => r := DoDestroy(i, addr, len);
      case CloneMm(dst, src) => r, faulted := DoClone(dst, src);
      case DestroyMm(i) =>
        var panicked := DoDestroyMm(i);
        r := if panicked then Panicked else Returned(0);
    }

    /**
      Any sequence of calls, up to the first that panics or faults: what each returned,
      how it ended, and the states it went through.
    */
    method Run(ops: seq<Op>) returns (rcs: seq<int>, end: End, ghost trace: seq<State>)
      requires Inv()
      modifies this, pool, mms, set m | m in mms :: m.pt
      ensures RunsTo(frames, old(Now()), ops, rcs, end, trace)
      ensures end == Finished ==> Inv() && trace[|ops|] == Now()
      decreases |ops|
    {
      ghost var now := Now();
      if ops == [] {
        RunsToNothing(frames, now, ops, Finished);
        return [], Finished, [now];
      }
      var r, faulted := Step(ops[0]);
      if r.Panicked? || faulted {
        end := if faulted then Fault else Panic;
        RunsToNothing(frames, now, ops, end);
        return [], end, [now];
      }
      ghost var next := Now();
      var later;
      later, end, trace := Run(ops[1..]);
      RunsOn(frames, now, r.rc, next, ops, later, end, trace);
      rcs, trace := [r.rc] + later, [now] + trace;
    }
  }
}
