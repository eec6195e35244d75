/** Cloning an address space: every area is copied, bytes included, to frames of its own. */
module Clone {
  import opened Common
  import opened FramePool
  import opened PageTable
  import opened Space
  import opened Areas
  import opened AddressSpace
  import opened UserBytes

  ghost predicate SameArea(v: Vma, w: Vma)
  {
    v.start == w.start && v.size == w.size && v.flags == w.flags
    && v.pages.size == w.pages.size && v.pages.flags == w.pages.flags
  }

  /** The first n areas of both lists agree in everything but the frame. */
  ghost predicate SameAreas(a: seq<Vma>, b: seq<Vma>, n: nat)
  {
    n <= |a| && n <= |b| && forall j | 0 <= j < n :: SameArea(a[j], b[j])
  }

  ghost predicate SameFrame(mem0: Memory, f: nat, mem: Memory, g: nat)
  {
    f in mem0 && g in mem && mem[g] == mem0[f]
  }

  /** The frames of the first n areas of b hold what those of a held. */
  ghost predicate SameBytes(a: seq<Vma>, mem0: Memory, b: seq<Vma>, mem: Memory, n: nat)
  {
    n <= |a| && n <= |b| && forall j | 0 <= j < n :: SameFrame(mem0, a[j].pages.paddr, mem, b[j].pages.paddr)
  }

  ghost predicate Cloned(a: seq<Vma>, s: Space, t: Space, n: nat)
  {
    SameAreas(a, t.vmas, n) && Grown(s, t, 0, t.vmas[..n])
  }

  lemma ClonedStep(a: seq<Vma>, s: Space, mid: Space, t: Space, n: nat)
    requires Cloned(a, s, mid, n) && n < |a| && n < |t.vmas|
    requires Grown(mid, t, n, [t.vmas[n]]) && SameArea(a[n], t.vmas[n])
    ensures Cloned(a, s, t, n + 1)
  {
  }

  /** Copying into a frame that was free disturbs no frame copied before. */
  lemma SameBytesStep(a: seq<Vma>, mem0: Memory, mid: seq<Vma>, mem: Memory, b: seq<Vma>, n: nat, free: set<nat>)
    requires SameBytes(a, mem0, mid, mem, n) && n < |a| && n < |b| && b == InsertAt(mid, n, b[n])
    requires DataFrames(mid) !! free && b[n].pages.paddr in free
    requires a[n].pages.paddr in mem0 && a[n].pages.paddr in mem && mem[a[n].pages.paddr] == mem0[a[n].pages.paddr]
    ensures SameBytes(a, mem0, b, mem[b[n].pages.paddr := mem[a[n].pages.paddr]], n + 1)
  {
  }

  lemma OtherPage(a: seq<Vma>, j: nat, n: nat)
    requires VmasOk(a) && j < n < |a|
    ensures a[j].Page() != a[n].Page()
  {
    assert VmaOk(a[j]) && VmaOk(a[n]);
    SamePageStart(a[j].start, a[n].start);
  }

  /** The areas cloned so far have the pages of the source's first areas. */
  lemma ClonedPages(a: seq<Vma>, b: seq<Vma>, n: nat)
    requires SameAreas(a, b, n)
    ensures PagesOf(b[..n]) == PagesOf(a)[..n]
  {
    forall j | 0 <= j < n
      ensures b[j].Page() == a[j].Page()
    {
      assert SameArea(a[j], b[j]);
    }
  }

  /** The next area of the source has a page of its own. */
  lemma NextOfAreas(a: seq<Vma>, n: nat)
    requires VmasOk(a) && n < |a|
    ensures a[n].Page() < PAGES && a[n].Page() !in PagesOf(a)[..n]
    ensures PagesOf(a)[..n] + [a[n].Page()] == PagesOf(a)[..n + 1]
  {
    assert VmaOk(a[n]);
    forall j | 0 <= j < n
      ensures PagesOf(a)[..n][j] != a[n].Page()
    {
      OtherPage(a, j, n);
    }
  }

  // ----- what the user sees

  /** A clone into an empty space maps the same pages and shows the same bytes. */
  lemma CloneShowsSame(a: seq<Vma>, flat: map<nat, nat>, mem0: Memory, b: seq<Vma>, flat': map<nat, nat>, mem: Memory,
                       u: nat)
    requires VmasOk(a) && Agrees(a, flat) && VmasOk(b) && Agrees(b, flat') && |a| == |b|
    requires SameAreas(a, b, |a|) && SameBytes(a, mem0, b, mem, |a|)
    ensures UserByte(flat', mem, u) == UserByte(flat, mem0, u)
  {
    var p := u / PAGE_SIZE;
    SamePages(a, b, p);
    if HasPage(a, p) {
      var i :| 0 <= i < |a| && a[i].Page() == p;
      AreaAt(a, flat, i);
      AreaAt(b, flat', i);
      assert SameArea(a[i], b[i]) && SameFrame(mem0, a[i].pages.paddr, mem, b[i].pages.paddr);
    }
  }

  ghost predicate ShowsSame(flat: map<nat, nat>, mem0: Memory, flat': map<nat, nat>, mem: Memory)
  {
    forall u: nat :: UserByte(flat', mem, u) == UserByte(flat, mem0, u)
  }

  lemma CloneShows(s: Space, free: set<nat>, mem0: Memory, e: Space, t: Space, free': set<nat>, mem: Memory)
    requires SpaceInv(s, free) && SpaceInv(t, free') && e.vmas == [] && Cloned(s.vmas, e, t, |s.vmas|)
    requires SameBytes(s.vmas, mem0, t.vmas, mem, |s.vmas|)
    ensures |t.vmas| == |s.vmas| && ShowsSame(Flat(s.dir), mem0, Flat(t.dir), mem)
  {
    forall u: nat
      ensures UserByte(Flat(t.dir), mem, u) == UserByte(Flat(s.dir), mem0, u)
    {
      CloneShowsSame(s.vmas, Flat(s.dir), mem0, t.vmas, Flat(t.dir), mem, u);
    }
  }

  lemma AreaAt(vmas: seq<Vma>, flat: map<nat, nat>, i: nat)
    requires VmasOk(vmas) && Agrees(vmas, flat) && i < |vmas|
    ensures vmas[i].Page() in flat && PteAddr(flat[vmas[i].Page()]) == vmas[i].pages.paddr
  {
    assert vmas[i] in vmas && VmaOk(vmas[i]) && MapsTo(flat, vmas[i]);
  }

  lemma SamePages(a: seq<Vma>, b: seq<Vma>, p: nat)
    requires |a| == |b| && SameAreas(a, b, |a|)
    ensures HasPage(a, p) <==> HasPage(b, p)
  {
    if HasPage(a, p) {
      var i :| 0 <= i < |a| && a[i].Page() == p;
      assert SameArea(a[i], b[i]) && b[i] in b;
    }
    if HasPage(b, p) {
      var i :| 0 <= i < |b| && b[i].Page() == p;
      assert SameArea(a[i], b[i]) && a[i] in a;
    }
  }

  // ----- what a clone needs, and what may go wrong

  /** The position of the last page of the address space among the areas, or their number. */
  ghost function TopAt(a: seq<Vma>): nat { FirstAt(a, TOP_PAGE, 0) }

  lemma HasTopIff(a: seq<Vma>, n: nat)
    requires n <= |a|
    ensures HasTop(a, 0, n) <==> TopAt(a) < n
  {
  }

  /** A clone gets as far as the last page of the address space, and has more to do. */
  ghost predicate ClonePassesTop(a: seq<Vma>, s: Space, free: set<nat>)
  {
    TopAt(a) + 1 < |a| && CanAdd(s, free, PagesOf(a)[..TopAt(a) + 1])
  }

  /** What stops the kernel in a clone: it passes the last page and cannot be completed. */
  ghost predicate ClonePanics(a: seq<Vma>, s: Space, free: set<nat>)
  {
    ClonePassesTop(a, s, free) && !CanAdd(s, free, PagesOf(a))
  }

  /** A clone reads through an absent leaf: at some area, when those before it have been cloned. */
  ghost predicate CloneFaults(a: seq<Vma>, s: Space, free: set<nat>)
  {
    exists j | 0 <= j < |a| :: FaultsAt(s, free, PagesOf(a)[..j], a[j].Page())
  }

  lemma ClonePanicsIff(a: seq<Vma>, s: Space, free: set<nat>, n: nat, rc: int, refused: bool)
    requires Stopped(s, free, PagesOf(a), n, rc, refused) && rc <= 0
    ensures rc < 0 && HasTop(a, 0, n) ==> ClonePassesTop(a, s, free)
    ensures !refused ==> (rc < 0 && HasTop(a, 0, n) <==> ClonePanics(a, s, free))
  {
    HasTopIff(a, n);
    StoppedAll(s, free, PagesOf(a), n, rc, refused);
    if TopAt(a) < |a| { StoppedIff(s, free, PagesOf(a), n, rc, refused, TopAt(a) + 1); }
  }

  lemma CloneFaultsIff(a: seq<Vma>, s: Space, free: set<nat>, n: nat, rc: int, refused: bool)
    requires VmasOk(a) && WellFormed(s.dir) && Stopped(s, free, PagesOf(a), n, rc, refused) && rc <= 0 && !refused
    ensures rc < 0 && FaultsAt(s, free, PagesOf(a)[..n], PagesOf(a)[n]) <==> CloneFaults(a, s, free)
  {
    if CloneFaults(a, s, free) {
      var j :| 0 <= j < |a| && FaultsAt(s, free, PagesOf(a)[..j], a[j].Page());
      assert VmaOk(a[j]);
      FaultsWhereStopped(s, free, PagesOf(a), n, rc, refused, j);
    }
  }

  /** With three free frames, cloning the last page and page 0 into an empty space panics; with four it does not. */
  lemma ClonePanicsOverTop(a: seq<Vma>, s: Space, free: set<nat>)
    requires EmptySpace(s) && |a| == 2 && a[0].start == TOP_PAGE && a[1].start == 0
    ensures |free| == 3 ==> ClonePanics(a, s, free)
    ensures |free| == 4 ==> !ClonePanics(a, s, free)
  {
    assert PagesOf(a)[..1] == [PAGES - 1] && PagesOf(a) == [PAGES - 1, 0];
    OverTopNeeds(s.dir);
    assert TopAt(a) == 0;
  }

  /** A clone that can be had does not fault. */
  lemma CloneWithoutFault(a: seq<Vma>, s: Space, free: set<nat>)
    requires VmasOk(a) && WellFormed(s.dir) && CanAdd(s, free, PagesOf(a))
    ensures !CloneFaults(a, s, free)
  {
    forall j | 0 <= j < |a|
      ensures !FaultsAt(s, free, PagesOf(a)[..j], a[j].Page())
    {
      NextOfAreas(a, j);
      CanAddFewer(s, free, PagesOf(a)[..j + 1], PagesOf(a));
      if FaultsAt(s, free, PagesOf(a)[..j], a[j].Page()) { FaultStops(s, free, PagesOf(a)[..j], a[j].Page()); }
    }
  }

  /** Into an empty space a clone needs a frame for each area of the source and one for each of its leaves. */
  lemma CloneNeeds(s: Space, free: set<nat>, e: Space)
    requires SpaceInv(s, free) && SpaceInv(e, free) && e.vmas == []
    ensures CanAdd(e, free, PagesOf(s.vmas)) <==> |s.vmas| + |LeafFrames(s.dir)| <= |free|
  {
    forall i: nat | i < ENTRIES
      ensures e.dir[i].None? && (UsesSlot(PagesOf(s.vmas), i) <==> s.dir[i].Some?)
    {
      if e.dir[i].Some? { var w := AreaUnder(e, free, i); }
      SlotsOfAreas(s, free, i);
    }
    assert NewSlots(e.dir, PagesOf(s.vmas)) == LeafSlots(s.dir);
    LeafCount(s.dir, LeafSlots(s.dir), LeafFrames(s.dir));
  }

  lemma SlotsOfAreas(s: Space, free: set<nat>, i: nat)
    requires SpaceInv(s, free) && i < ENTRIES
    ensures UsesSlot(PagesOf(s.vmas), i) <==> s.dir[i].Some?
  {
    if s.dir[i].Some? {
      var w := AreaUnder(s, free, i);
      var j :| 0 <= j < |s.vmas| && s.vmas[j] == w;
      assert PagesOf(s.vmas)[j] in PagesOf(s.vmas);
    }
    if UsesSlot(PagesOf(s.vmas), i) {
      var j :| 0 <= j < |s.vmas| && PagesOf(s.vmas)[j] / ENTRIES == i;
      LeafOfArea(s, free, s.vmas[j]);
    }
  }

  /** What became of a clone whose loop has stopped. */
  lemma CloneOutcome(src: Space, was: Found, stop: Stop)
    requires SpaceInv(src, was.free) && SpaceInv(was.s, was.free) && StoppedAt(was, PagesOf(src.vmas), stop)
    ensures stop.rc == -EEXIST ==> InTheWay(was.s.vmas, PagesOf(src.vmas))
    ensures stop.rc < 0 && HasTop(src.vmas, 0, stop.n) ==> ClonePassesTop(src.vmas, was.s, was.free)
    ensures stop.refused == was.refused ==>
              && (stop.rc < 0 && HasTop(src.vmas, 0, stop.n) <==> ClonePanics(src.vmas, was.s, was.free))
              && (stop.rc == 0 <==> CanAdd(was.s, was.free, PagesOf(src.vmas)))
              && (was.s.vmas == [] ==> (stop.rc == 0 <==> |src.vmas| + |LeafFrames(src.dir)| <= |was.free|))
    ensures stop.faulted == (was.faulted || (stop.refused == was.refused && CloneFaults(src.vmas, was.s, was.free)))
  {
    var pages, refused := PagesOf(src.vmas), stop.refused != was.refused;
    ClonePanicsIff(src.vmas, was.s, was.free, stop.n, stop.rc, refused);
    StoppedAll(was.s, was.free, pages, stop.n, stop.rc, refused);
    if was.s.vmas == [] { CloneNeeds(src, was.free, was.s); }
    if !refused { CloneFaultsIff(src.vmas, was.s, was.free, stop.n, stop.rc, refused); }
  }

  // ----- the routine

  /** One area: a page of its own in dst with the bytes of the area of src. */
  method ClonePage(dst: Mm, pool: Pool, i: nat, v: Vma) returns (rc: int)
    requires dst.Valid(pool) && pool.HasMemory() && i <= |dst.vmas| && VmaOk(v)
    modifies dst, dst.pt, pool
    ensures dst.Valid(pool) && pool.HasMemory() && rc <= 0
    ensures rc < 0 ==> (rc == -ENOMEM || rc == -EEXIST) && dst.Untouched(pool) && pool.mem == old(pool.mem)
    ensures rc == -EEXIST ==> HasPage(old(dst.vmas), v.Page())
    ensures rc == -ENOMEM && pool.refused == old(pool.refused) ==>
              |old(pool.free)| < 1 + LeafCost(old(dst.pt.dir), v.Page())
    ensures rc == 0 ==> pool.refused == old(pool.refused) && !HasPage(old(dst.vmas), v.Page())
    ensures rc == 0 ==> |pool.free| + 1 + LeafCost(old(dst.pt.dir), v.Page()) == |old(pool.free)|
    ensures rc == 0 ==> dst.Conserves(pool) && pool.heap == old(pool.heap) + 2
    ensures rc == 0 ==> i < |dst.vmas| && Grown(old(dst.View()), dst.View(), i, [dst.vmas[i]])
    ensures rc == 0 ==> SameArea(v, dst.vmas[i])
    ensures rc == 0 ==> dst.vmas[i].pages.paddr in old(pool.free)
    ensures rc == 0 ==> pool.mem == old(pool.mem)[dst.vmas[i].pages.paddr := old(pool.mem)[v.pages.paddr]]
    ensures dst.pt.faulted == (old(dst.pt.faulted) || (pool.refused == old(pool.refused) &&
                                                       PageFaults(old(dst.pt.dir), old(pool.free), v.Page())))
  {
    rc := dst.AddPage(pool, i, v.start, v.flags, v.pages.flags);
    if rc < 0 { return; }
    assert VmaOk(dst.vmas[i]);
    pool.CopyFrame(dst.vmas[i].pages.paddr, v.pages.paddr);
  }

  /** Where a clone stands after n areas. */
  ghost predicate CloneState(a: seq<Vma>, s: Space, free0: set<nat>, mem0: Memory, t: Space, free: set<nat>,
                             mem: Memory, n: nat)
  {
    && Cloned(a, s, t, n) && SameBytes(a, mem0, t.vmas, mem, n)
    && SameOutside(mem0, mem, free0) && FramesConserved(s, free0, t, free)
  }

  lemma CloneStateStep(a: seq<Vma>, s: Space, free0: set<nat>, mem0: Memory, mid: Space, free1: set<nat>, mem1: Memory,
                       t: Space, free: set<nat>, n: nat)
    requires CloneState(a, s, free0, mem0, mid, free1, mem1, n) && n < |a| && n < |t.vmas| && SpaceInv(mid, free1)
    requires Grown(mid, t, n, [t.vmas[n]]) && SameArea(a[n], t.vmas[n]) && FramesConserved(mid, free1, t, free)
    requires t.vmas[n].pages.paddr in free1 && a[n].pages.paddr in mem0 && a[n].pages.paddr !in free0
    ensures a[n].pages.paddr in mem1
    ensures CloneState(a, s, free0, mem0, t, free, mem1[t.vmas[n].pages.paddr := mem1[a[n].pages.paddr]], n + 1)
  {
    GrownFree(s, free0, mid, free1, 0, mid.vmas[..n]);
    ClonedStep(a, s, mid, t, n);
    SameBytesStep(a, mem0, mid.vmas, mem1, t.vmas, n, free1);
  }

  /** The areas a have frames in use, with memory behind them, and the destination is in order. */
  ghost predicate CanClone(a: seq<Vma>, was: Found, mem0: Memory)
  {
    VmasOk(a) && DataFrames(a) !! was.free && MemoryOk(mem0) && SpaceInv(was.s, was.free)
  }

  /** Where the routine stands after n of the areas a, and why it stopped if it did. */
  ghost predicate Cloning(dst: Mm, pool: Pool, a: seq<Vma>, was: Found, mem0: Memory, n: nat, rc: int)
    reads dst, dst.pt, pool
  {
    && dst.Valid(pool) && pool.HasMemory() && n <= |a| && rc <= 0 && (rc < 0 ==> n < |a|)
    && CloneState(a, was.s, was.free, mem0, dst.View(), pool.free, pool.mem, n) && pool.heap == was.heap + 2 * n
    && Taken(was.s, was.free, pool.free, PagesOf(a)[..n])
    && GoesOn(was, PagesOf(a)[..n], if n < |a| then a[n].Page() else 0, rc, pool.refused, dst.pt.faulted)
  }

  lemma CloneStarts(a: seq<Vma>, s: Space, free: set<nat>, mem: Memory)
    ensures CloneState(a, s, free, mem, s, free, mem, 0) && Taken(s, free, free, PagesOf(a)[..0])
  {
    TakenNothing(s, free, 0);
    assert PagesOf(a)[..0] == [];
  }

  lemma CloningStarts(dst: Mm, pool: Pool, a: seq<Vma>)
    requires dst.Valid(pool) && pool.HasMemory()
    ensures Cloning(dst, pool, a, dst.Now(pool), pool.mem, 0, 0)
  {
    CloneStarts(a, dst.View(), pool.free, pool.mem);
  }

  /** The loop over the areas a of the source: how many it cloned, and why it stopped. */
  method ClonePages(dst: Mm, a: seq<Vma>, pool: Pool, ghost was: Found, ghost mem0: Memory) returns (rc: int, n: nat)
    requires dst.Valid(pool) && CanClone(a, was, mem0) && was == dst.Now(pool) && mem0 == pool.mem
    modifies dst, dst.pt, pool
    ensures Cloning(dst, pool, a, was, mem0, n, rc) && (rc == 0 <==> n == |a|)
  {
    CloningStarts(dst, pool, a);
    n, rc := 0, 0;
    while n < |a| && rc == 0
      invariant Cloning(dst, pool, a, was, mem0, n, rc)
      decreases |a| - n, if rc == 0 then 1 else 0
    {
      rc, n := CloneNext(dst, a, pool, n, was, mem0);
    }
  }

  /** One round of that loop after n areas, and how many there are then. */
  method CloneNext(dst: Mm, a: seq<Vma>, pool: Pool, n: nat, ghost was: Found, ghost mem0: Memory)
    returns (rc: int, next: nat)
    requires CanClone(a, was, mem0) && n < |a| && Cloning(dst, pool, a, was, mem0, n, 0)
    modifies dst, dst.pt, pool
    ensures next == (if rc == 0 then n + 1 else n) && Cloning(dst, pool, a, was, mem0, next, rc)
  {
    ghost var mid, mem1, free1, p := dst.View(), pool.mem, pool.free, a[n].Page();
    assert a[n] in a && VmaOk(a[n]) && a[n].pages.paddr in DataFrames(a);
    NextOfAreas(a, n);
    ClonedPages(a, mid.vmas, n);
    NextCost(was.s, was.free, mid, free1, 0, mid.vmas[..n], PagesOf(a)[..n], p);
    rc := ClonePage(dst, pool, n, a[n]);
    if rc < 0 { return rc, n; }
    CloneStateStep(a, was.s, was.free, mem0, mid, free1, mem1, dst.View(), pool.free, n);
    TakenStep(was.s, was.free, free1, pool.free, PagesOf(a)[..n], p, LeafCost(mid.dir, p));
    next := n + 1;
  }

  lemma AreasStopped(a: seq<Vma>, was: Found, free: set<nat>, stop: Stop)
    requires stop.n <= |a| && stop.rc <= 0 && (stop.rc == 0 <==> stop.n == |a|)
    requires Taken(was.s, was.free, free, PagesOf(a)[..stop.n])
    requires GoesOn(was, PagesOf(a)[..stop.n], if stop.n < |a| then a[stop.n].Page() else 0, stop.rc, stop.refused,
                    stop.faulted)
    ensures StoppedAt(was, PagesOf(a), stop)
  {
  }

  lemma CloneStopped(dst: Mm, pool: Pool, a: seq<Vma>, was: Found, mem0: Memory, n: nat, rc: int)
    requires Cloning(dst, pool, a, was, mem0, n, rc) && (rc == 0 <==> n == |a|)
    ensures StoppedAt(was, PagesOf(a), Stop(n, rc, pool.refused, dst.pt.faulted))
    ensures SameOutside(mem0, pool.mem, was.free)
  {
    AreasStopped(a, was, pool.free, Stop(n, rc, pool.refused, dst.pt.faulted));
  }

  lemma SameTop(a: seq<Vma>, b: seq<Vma>, n: nat)
    requires SameAreas(a, b, n)
    ensures HasTop(a, 0, n) <==> HasTop(b, 0, n)
  {
    forall i | 0 <= i < n
      ensures a[i].start == b[i].start
    {
      assert SameArea(a[i], b[i]);
    }
  }

  /** All the areas, or none; a panic when the last page was among those to be taken out again. */
  method CloneAll(dst: Mm, a: seq<Vma>, pool: Pool, ghost was: Found, ghost mem0: Memory)
    returns (r: Outcome, ghost stop: Stop)
    requires dst.Valid(pool) && CanClone(a, was, mem0) && was == dst.Now(pool) && mem0 == pool.mem
    modifies dst, dst.pt, pool
    ensures StoppedAt(was, PagesOf(a), stop) && stop.refused == pool.refused
    ensures r == if stop.rc < 0 && HasTop(a, 0, stop.n) then Panicked else Returned(stop.rc)
    ensures r.Returned? ==> dst.Valid(pool) && pool.HasMemory() && dst.pt.faulted == stop.faulted
    ensures r.Returned? ==> FramesConserved(was.s, was.free, dst.View(), pool.free)
    ensures r.Failed() ==> dst.View() == was.s && pool.free == was.free && pool.heap == was.heap
    ensures r.Ok() ==> Cloned(a, was.s, dst.View(), |a|) && SameBytes(a, mem0, dst.vmas, pool.mem, |a|)
    ensures r.Ok() ==> pool.heap == was.heap + 2 * |a|
    ensures SameOutside(mem0, pool.mem, was.free)
  {
    var rc, n := ClonePages(dst, a, pool, was, mem0);
    stop := Stop(n, rc, pool.refused, dst.pt.faulted);
    CloneStopped(dst, pool, a, was, mem0, n, rc);
    r := Returned(rc);
    if rc < 0 { r := UndoClone(dst, pool, n, rc, a, was, mem0); }
  }

  /** The way back; its outcome is that of the whole call. */
  method UndoClone(dst: Mm, pool: Pool, n: nat, rc: int, ghost a: seq<Vma>, ghost was: Found, ghost mem0: Memory)
    returns (r: Outcome)
    requires SpaceInv(was.s, was.free) && Cloning(dst, pool, a, was, mem0, n, rc)
    modifies dst, dst.pt, pool`free, pool`heap
    ensures r == if HasTop(a, 0, n) then Panicked else Returned(rc)
    ensures r.Returned? ==> dst.Valid(pool) && pool.HasMemory() && dst.pt.faulted == old(dst.pt.faulted)
    ensures r.Returned? ==> dst.View() == was.s && pool.free == was.free && pool.heap == was.heap
    ensures pool.mem == old(pool.mem) && pool.refused == old(pool.refused)
  {
    SameTop(a, dst.vmas, n);
    assert dst.vmas[0..n] == dst.vmas[..n];
    var panicked := dst.Rollback(pool, 0, n, was.s, was.free, was.heap);
    r := if panicked then Panicked else Returned(rc);
  }

  /** The source stays in order and apart from the clone, which shows the same bytes if it went into an empty space. */
  lemma CloneKeeps(src: Space, was: Found, t: Space, free: set<nat>, mem0: Memory, mem: Memory, ok: bool)
    requires SpaceInv(src, was.free) && Owned(was.s) !! Owned(src) && SpaceInv(t, free)
    requires FramesConserved(was.s, was.free, t, free)
    requires ok ==> Cloned(src.vmas, was.s, t, |src.vmas|) && SameBytes(src.vmas, mem0, t.vmas, mem, |src.vmas|)
    ensures SpaceInv(src, free) && Owned(t) !! Owned(src)
    ensures ok && was.s.vmas == [] ==> |t.vmas| == |src.vmas| && ShowsSame(Flat(src.dir), mem0, Flat(t.dir), mem)
  {
    OtherSpace(src, was.s, was.free, t, free);
    if ok && was.s.vmas == [] { CloneShows(src, free, mem0, was.s, t, free, mem); }
  }

  /**
    Clone src into dst, in front of whatever dst holds. A failure leaves dst, the
    free frames and the heap as they were, unless it comes after the last page of the
    address space was cloned; the source is never touched.
  */
  method MmClone(dst: Mm, src: Mm, pool: Pool) returns (r: Outcome)
    requires dst.Valid(pool) && src.Valid(pool) && pool.HasMemory() && dst != src && dst.pt != src.pt
    requires Owned(dst.View()) !! Owned(src.View())
    modifies dst, dst.pt, pool
    ensures r.Panicked? ==> ClonePassesTop(src.vmas, old(dst.View()), old(pool.free))
    ensures pool.refused == old(pool.refused) ==>
              (r.Panicked? <==> ClonePanics(src.vmas, old(dst.View()), old(pool.free)))
    ensures r.Returned? ==> dst.Valid(pool) && src.Valid(pool) && pool.HasMemory()
    ensures r.Returned? ==> r.rc in {0, -ENOMEM, -EEXIST}
    ensures r.Returned? ==> Owned(dst.View()) !! Owned(src.View()) && dst.Balanced(pool)
    ensures r.Failed() ==> dst.Untouched(pool)
    ensures r == Returned(-EEXIST) ==> InTheWay(old(dst.vmas), PagesOf(src.vmas))
    ensures pool.refused == old(pool.refused) ==>
              (r.Ok() <==> CanAdd(old(dst.View()), old(pool.free), PagesOf(src.vmas)))
    ensures pool.refused == old(pool.refused) && old(dst.vmas) == [] ==>
              (r.Ok() <==> |src.vmas| + |LeafFrames(src.pt.dir)| <= |old(pool.free)|)
    ensures r.Ok() ==> Cloned(src.vmas, old(dst.View()), dst.View(), |src.vmas|)
    ensures r.Ok() ==> SameBytes(src.vmas, old(pool.mem), dst.vmas, pool.mem, |src.vmas|)
    ensures r.Ok() && old(dst.vmas) == [] ==>
              |dst.vmas| == |src.vmas| && ShowsSame(Flat(src.pt.dir), old(pool.mem), Flat(dst.pt.dir), pool.mem)
    ensures SameOutside(old(pool.mem), pool.mem, old(pool.free))
    ensures r.Returned? ==>
              dst.pt.faulted == (old(dst.pt.faulted) || (pool.refused == old(pool.refused) &&
                                                         CloneFaults(src.vmas, old(dst.View()), old(pool.free))))
  {
    ghost var was, s := dst.Now(pool), src.View();
    OwnedNotFree(s, was.free);
    ghost var stop;
    r, stop := CloneAll(dst, src.vmas, pool, was, pool.mem);
    assert src.View() == s;
    CloneOutcome(s, was, stop);
    if r.Panicked? { return; }
    CloneKeeps(s, was, dst.View(), pool.free, old(pool.mem), pool.mem, r.rc == 0);
  }
}
