/**
  The routines that create, destroy, clone and tear down user address spaces. Each
  works page by page on the area list, the page table and the frame pool, and undoes
  its own work when it fails half way. Pointer arithmetic wraps at 32 bits.
*/
module AddressSpace {
  import opened Common
  import opened FramePool
  import opened PageTable
  import opened Space
  import opened Areas

  const EACCES: int := 13
  const EFAULT: int := 14

  class Mm {
    var vmas: seq<Vma>
    const pt: Table
    const root: nat

    constructor (root: nat)
      ensures fresh(pt) && this.root == root && vmas == []
      ensures |pt.dir| == ENTRIES && (forall i | 0 <= i < ENTRIES :: pt.dir[i].None?) && !pt.faulted
    {
      vmas, this.root := [], root;
      pt := new Table();
    }

    /** A new, empty space, or null when the object or its directory cannot be had. */
    static method New(pool: Pool) returns (mm: Mm?)
      requires pool.Valid()
      modifies pool`free, pool`heap, pool`refused
      ensures pool.Valid()
      ensures mm == null ==> pool.free == old(pool.free) && pool.heap == old(pool.heap)
      ensures pool.refused == old(pool.refused) ==> (mm == null <==> old(pool.free) == {})
      ensures mm != null ==> fresh(mm) && fresh(mm.pt) && mm.Valid(pool) && mm.vmas == [] && !mm.pt.faulted
      ensures mm != null ==> pool.free + Owned(mm.View()) == old(pool.free) && pool.heap == old(pool.heap) + 1
    {
      mm := null;
      var ok := pool.KMalloc();
      if ok {
        var r := pool.PgAlloc();
        if r.None? {
          pool.KFree();
        } else {
          mm := new Mm(r.value);
          EmptyInv(mm.View(), pool.free);
        }
      }
    }

    ghost function View(): Space
      reads this, pt
    {
      Space(vmas, pt.dir, root)
    }

    ghost function Now(pool: Pool): Found
      reads this, pt, pool`free, pool`heap, pool`refused
    {
      Found(View(), pool.free, pool.heap, pool.refused, pt.faulted)
    }

    ghost predicate Valid(pool: Pool)
      reads this, pt, pool`free, pool`heap
    {
      SpaceInv(View(), pool.free) && pool.Valid() && pool.heap >= 2 * |vmas|
    }

    /** The frames that moved only moved between the free set and this space. */
    twostate predicate Conserves(pool: Pool)
      reads this, pt, pool`free, pool`heap
    {
      FramesConserved(old(View()), old(pool.free), View(), pool.free)
    }

    /** Frames are conserved, and two objects are alive for each area. */
    twostate predicate Balanced(pool: Pool)
      reads this, pt, pool`free, pool`heap
    {
      Conserves(pool) && pool.heap + 2 * |old(vmas)| == old(pool.heap) + 2 * |vmas|
    }

    twostate predicate Untouched(pool: Pool)
      reads this, pt, pool`free, pool`heap
    {
      View() == old(View()) && pool.free == old(pool.free) && pool.heap == old(pool.heap)
    }

    method FindBefore(addr: nat, size: nat) returns (r: Option<nat>)
      ensures r == PlaceFor(vmas, addr, size)
    {
      if vmas == [] { return Some(0); }
      var j := 0;
      while j < |vmas| && vmas[j].start < Wrap(addr + size)
        invariant j <= |vmas|
        invariant FirstAbove(vmas, Wrap(addr + size), 0) == FirstAbove(vmas, Wrap(addr + size), j)
      {
        j := j + 1;
      }
      // The list sentry counts as ending at address 0.
      if j > 0 && addr < Wrap(vmas[j - 1].start + vmas[j - 1].size) { return None; }
      r := Some(j);
    }

    method FindContinuous(addr: nat, len: nat) returns (r: Option<nat>)
      requires addr < SPACE && len % PAGE_SIZE == 0
      ensures r == if HasRun(vmas, addr, len / PAGE_SIZE) then Some(FirstAt(vmas, addr, 0)) else None
    {
      var i := 0;
      while i < |vmas| && vmas[i].start != addr
        invariant i <= |vmas| && FirstAt(vmas, addr, 0) == FirstAt(vmas, addr, i)
      {
        i := i + 1;
      }
      if i == |vmas| { return None; }
      var t := 1;
      while t * PAGE_SIZE < len
        invariant 1 <= t && (t <= len / PAGE_SIZE || len == 0)
        invariant i + t <= |vmas|
        invariant forall j | i < j < i + t :: vmas[j].start == Wrap(addr + (j - i) * PAGE_SIZE)
        decreases len - t * PAGE_SIZE
      {
        if i + t == |vmas| || vmas[i + t].start != Wrap(addr + t * PAGE_SIZE) { return None; }
        t := t + 1;
      }
      r := Some(i);
    }

    /** The area object, the upages object and a frame, or none of the three. */
    static method TakePage(pool: Pool) returns (r: Option<nat>)
      requires pool.Valid()
      modifies pool`free, pool`heap, pool`refused
      ensures pool.Valid()
      ensures r.None? ==> pool.free == old(pool.free) && pool.heap == old(pool.heap)
      ensures r.Some? ==> r.value in old(pool.free) && IsFrame(r.value)
      ensures r.Some? ==> pool.free == old(pool.free) - {r.value} && pool.heap == old(pool.heap) + 2
      ensures r.Some? ==> |pool.free| + 1 == |old(pool.free)| && pool.refused == old(pool.refused)
      ensures pool.refused >= old(pool.refused)
      ensures r.None? && pool.refused == old(pool.refused) ==> old(pool.free) == {}
    {
      var ok := pool.KMalloc();
      if !ok { return None; }
      ok := pool.KMalloc();
      if !ok {
        pool.KFree();
        return None;
      }
      r := pool.PgAlloc();
      if r.None? {
        pool.KFree();
        pool.KFree();
      }
    }

    static method ReturnPage(pool: Pool, f: nat)
      requires pool.Valid() && IsFrame(f) && f !in pool.free && pool.heap >= 2
      modifies pool`free, pool`heap
      ensures pool.Valid() && pool.free == old(pool.free) + {f} && pool.heap == old(pool.heap) - 2
    {
      pool.PgFree(f);
      pool.KFree();
      pool.KFree();
    }

    /** One page: area, upages, frame and mapping, or nothing at all. */
    method AddPage(pool: Pool, k: nat, start: nat, flags: nat, pflags: nat) returns (rc: int)
      requires Valid(pool) && k <= |vmas| && start < SPACE && start % PAGE_SIZE == 0
      modifies this, pt, pool`free, pool`heap, pool`refused
      ensures Valid(pool) && rc <= 0 && pool.refused >= old(pool.refused)
      ensures rc < 0 ==> (rc == -ENOMEM || rc == -EEXIST) && Untouched(pool)
      ensures rc == -EEXIST ==> HasPage(old(vmas), start / PAGE_SIZE)
      ensures rc == -ENOMEM && pool.refused == old(pool.refused) ==>
                |old(pool.free)| < 1 + LeafCost(old(pt.dir), start / PAGE_SIZE)
      ensures rc == 0 ==> pool.refused == old(pool.refused) && !HasPage(old(vmas), start / PAGE_SIZE)
      ensures rc == 0 ==> |pool.free| + 1 + LeafCost(old(pt.dir), start / PAGE_SIZE) == |old(pool.free)|
      ensures rc == 0 ==> Conserves(pool) && pool.heap == old(pool.heap) + 2
      ensures rc == 0 ==> k < |vmas| && Grown(old(View()), View(), k, [vmas[k]])
      ensures rc == 0 ==> vmas[k].pages.paddr in old(pool.free)
      ensures rc == 0 ==> vmas[k].start == start && vmas[k].flags == flags && vmas[k].pages.flags == pflags
      ensures pt.faulted == (old(pt.faulted) || (pool.refused == old(pool.refused) &&
                                                 PageFaults(old(pt.dir), old(pool.free), start / PAGE_SIZE)))
    {
      MappedIff(View(), pool.free, start / PAGE_SIZE);
      var f;
      rc, f := TakeAndMap(pool, start, flags, start / PAGE_SIZE);
      if rc < 0 { return; }
      var v := Vma(start, PAGE_SIZE, flags, Upages(f, PAGE_SIZE, pflags, 1));
      AddPageOk(old(View()), old(pool.free), v, k, pt.dir, pool.free);
      vmas := InsertAt(vmas, k, v);
      assert vmas[k] == v;
    }

    /** The four stages for one page: two objects, a frame and its mapping. */
    method TakeAndMap(pool: Pool, start: nat, flags: nat, ghost v: nat) returns (rc: int, f: nat)
      requires Inv(pt.dir, pool.free) && pool.Valid() && start < SPACE && start % PAGE_SIZE == 0
      requires v < PAGES && v == start / PAGE_SIZE
      modifies pt, pool`free, pool`heap, pool`refused
      ensures pool.Valid() && Inv(pt.dir, pool.free) && rc <= 0 && pool.refused >= old(pool.refused)
      ensures rc < 0 ==> rc == -ENOMEM || rc == -EEXIST
      ensures rc < 0 ==> pt.dir == old(pt.dir) && pool.free == old(pool.free) && pool.heap == old(pool.heap)
      ensures rc == -EEXIST ==> v in old(Flat(pt.dir))
      ensures rc == -ENOMEM && pool.refused == old(pool.refused) ==>
                |old(pool.free)| < 1 + LeafCost(old(pt.dir), v)
      ensures rc == 0 ==> pool.refused == old(pool.refused) && pool.heap == old(pool.heap) + 2
      ensures rc == 0 ==> |pool.free| + 1 + LeafCost(old(pt.dir), v) == |old(pool.free)|
      ensures rc == 0 ==> IsFrame(f) && f in old(pool.free) && Keeps(old(pt.dir), pt.dir)
      ensures rc == 0 ==> v !in old(Flat(pt.dir))
      ensures rc == 0 ==> Flat(pt.dir) == old(Flat(pt.dir))[v := MakePte(f, flags)]
      ensures rc == 0 ==> pool.free + LeafFrames(pt.dir) == old(pool.free) - {f} + old(LeafFrames(pt.dir))
      ensures pt.faulted == (old(pt.faulted) || (pool.refused == old(pool.refused) &&
                                                 PageFaults(old(pt.dir), old(pool.free), v)))
    {
      var r := TakePage(pool);
      if r.None? { return -ENOMEM, 0; }
      f := r.value;
      rc := MapOrReturn(pool, start, f, flags, v, old(pool.free));
    }

    /** The mapping, after which a failure gives the frame f and the two objects back. */
    method MapOrReturn(pool: Pool, start: nat, f: nat, flags: nat, ghost v: nat, ghost free0: set<nat>)
      returns (rc: int)
      requires Inv(pt.dir, free0) && pool.Valid() && start < SPACE && start % PAGE_SIZE == 0
      requires v < PAGES && v == start / PAGE_SIZE
      requires f in free0 && IsFrame(f) && pool.free == free0 - {f} && pool.heap >= 2
      modifies pt, pool`free, pool`heap
      ensures pool.Valid() && Inv(pt.dir, pool.free) && rc <= 0
      ensures rc < 0 ==> rc == -ENOMEM || rc == -EEXIST
      ensures rc < 0 ==> pt.dir == old(pt.dir) && pool.free == free0 && pool.heap == old(pool.heap) - 2
      ensures rc == -EEXIST ==> v in old(Flat(pt.dir))
      ensures rc == -ENOMEM ==> |free0| < 1 + LeafCost(old(pt.dir), v)
      ensures rc == 0 ==> |pool.free| + 1 + LeafCost(old(pt.dir), v) == |free0| && pool.heap == old(pool.heap)
      ensures rc == 0 ==> Keeps(old(pt.dir), pt.dir) && v !in old(Flat(pt.dir))
      ensures rc == 0 ==> Flat(pt.dir) == old(Flat(pt.dir))[v := MakePte(f, flags)]
      ensures rc == 0 ==> pool.free + LeafFrames(pt.dir) == free0 - {f} + old(LeafFrames(pt.dir))
      ensures pt.faulted == (old(pt.faulted) || PageFaults(old(pt.dir), free0, v))
    {
      OnePageFaults(pt.dir, free0, f, v);
      FreeLeafFrames(pt.dir, free0, f);
      PutBack(free0, f);
      rc := MapPage(pool, start, f, flags, v);
      if rc < 0 { ReturnPage(pool, f); }
    }

    /** map_pages for a single page. */
    method MapPage(pool: Pool, start: nat, f: nat, flags: nat, ghost v: nat) returns (rc: int)
      requires Inv(pt.dir, pool.free) && pool.Valid() && IsFrame(f) && start < SPACE && start % PAGE_SIZE == 0
      requires v < PAGES && v == start / PAGE_SIZE
      modifies pt, pool`free
      ensures pool.Valid() && Inv(pt.dir, pool.free) && rc <= 0
      ensures rc < 0 ==> (rc == -ENOMEM || rc == -EEXIST) && pt.dir == old(pt.dir) && pool.free == old(pool.free)
      ensures rc == -EEXIST ==> v in old(Flat(pt.dir))
      ensures rc == -ENOMEM ==> |old(pool.free)| < LeafCost(old(pt.dir), v)
      ensures rc == 0 ==> v !in old(Flat(pt.dir)) && Keeps(old(pt.dir), pt.dir)
      ensures rc == 0 ==> |pool.free| + LeafCost(old(pt.dir), v) == |old(pool.free)|
      ensures rc == 0 ==> Flat(pt.dir) == old(Flat(pt.dir))[v := MakePte(f, flags)]
      ensures rc == 0 ==> pool.free + LeafFrames(pt.dir) == old(pool.free + LeafFrames(pt.dir))
      ensures pt.faulted == (old(pt.faulted) || MapFaults(old(pt.dir), old(pool.free), v, 1))
    {
      OnePageAdded(Flat(pt.dir), v, f, flags);
      OnePageCan(pt.dir, pool.free, v);
      StartFits(start);
      rc := pt.MapPages(pool, start, f, PAGE_SIZE, flags);
    }

    /**
      One page: unmap it, drop its area, free its frame when the last reference goes.
      The last page of the address space is not unmapped, and an assertion fails.
    */
    method RemovePage(pool: Pool, k: nat) returns (panicked: bool)
      requires Valid(pool) && k < |vmas|
      modifies this, pt, pool`free, pool`heap
      ensures panicked <==> old(vmas)[k].start == TOP_PAGE
      ensures !panicked ==> Valid(pool) && Conserves(pool) && pool.heap == old(pool.heap) - 2
      ensures !panicked ==> Shrunk(old(View()), View(), k, 1) && pt.faulted == old(pt.faulted)
    {
      var v := vmas[k];
      assert VmaOk(v) && MapsTo(Flat(pt.dir), v);
      vmas := RemoveAt(vmas, k);
      panicked := UnmapPage(pool, v);
      if panicked { return; }
      RemovePageOk(old(View()), old(pool.free), k, pt.dir, pool.free);
      var refs := v.pages.refs - 1;
      if refs == 0 {
        pool.PgFree(v.pages.paddr);
        pool.KFree();
      }
      pool.KFree();
    }

    /** unmap_pages for one area, with the assertion on its result. */
    method UnmapPage(pool: Pool, v: Vma) returns (panicked: bool)
      requires Inv(pt.dir, pool.free) && pool.Valid() && VmaOk(v) && MapsTo(Flat(pt.dir), v)
      modifies pt, pool`free
      ensures panicked <==> v.start == TOP_PAGE
      ensures !panicked ==> pool.Valid() && Inv(pt.dir, pool.free) && Keeps(pt.dir, old(pt.dir))
      ensures !panicked ==> Flat(pt.dir) == old(Flat(pt.dir)) - {v.Page()} && pt.faulted == old(pt.faulted)
      ensures !panicked ==> pool.free + LeafFrames(pt.dir) == old(pool.free + LeafFrames(pt.dir))
    {
      MappedNotZero(pt.dir, v.Page());
      EndOfPage(v.start);
      var r := pt.UnmapPages(pool, v.start, v.size);
      panicked := r != Unmapped(v.size, v.pages.paddr);
    }

    /** Remove the areas of n pages from position k on. */
    method UnmapAndFree(pool: Pool, k: nat, n: nat) returns (panicked: bool)
      requires Valid(pool) && k + n <= |vmas|
      modifies this, pt, pool`free, pool`heap
      ensures panicked <==> HasTop(old(vmas), k, n)
      ensures !panicked ==> Valid(pool) && Conserves(pool) && pool.heap == old(pool.heap) - 2 * n
      ensures !panicked ==> Shrunk(old(View()), View(), k, n) && pt.faulted == old(pt.faulted)
    {
      ghost var s0 := View();
      var i := 0;
      panicked := false;
      while i < n
        invariant 0 <= i <= n && !panicked && !HasTop(s0.vmas, k, i)
        invariant Valid(pool) && FramesConserved(s0, old(pool.free), View(), pool.free)
        invariant pool.heap == old(pool.heap) - 2 * i && Shrunk(s0, View(), k, i) && pt.faulted == old(pt.faulted)
      {
        ghost var mid := View();
        ShrunkNext(s0, mid, k, i);
        TopStep(s0.vmas, k, i);
        panicked := RemovePage(pool, k);
        if panicked {
          TopWithin(s0.vmas, k, i + 1, n);
          return;
        }
        ShrunkStep(s0, mid, View(), k, i);
        i := i + 1;
      }
    }

    /** Where a creation stands after n pages, and why it stopped if it did. */
    ghost predicate Adding(pool: Pool, was: Found, k: nat, addr: nat, n: nat, flags: nat, rc: int)
      reads this, pt, pool`free, pool`heap, pool`refused
    {
      && Valid(pool) && FramesConserved(was.s, was.free, View(), pool.free) && pool.heap == was.heap + 2 * n
      && Created(was.s, View(), k, addr, n, flags) && Taken(was.s, was.free, pool.free, Range(addr, n))
      && rc <= 0 && GoesOn(was, Range(addr, n), PageAt(addr, n), rc, pool.refused, pt.faulted)
    }

    /** The loop of create_uvm over `count` pages: how many it added, and why it stopped. */
    method AddPages(pool: Pool, k: nat, addr: nat, count: nat, flags: nat) returns (rc: int, n: nat)
      requires Valid(pool) && k <= |vmas| && addr < SPACE && addr % PAGE_SIZE == 0 && count * PAGE_SIZE < SPACE
      modifies this, pt, pool`free, pool`heap, pool`refused
      ensures Adding(pool, old(Now(pool)), k, addr, n, flags, rc) && n <= count && (rc == 0 <==> n == count)
    {
      ghost var was := Now(pool);
      TakenNothing(was.s, was.free, addr);
      CreatedNothing(was.s, k, addr, flags);
      n, rc := 0, 0;
      while n < count && rc == 0
        invariant 0 <= n <= count && (rc < 0 ==> n < count) && Adding(pool, was, k, addr, n, flags, rc)
        decreases count - n, if rc == 0 then 1 else 0
      {
        PagesBefore(n, count);
        rc, n := AddNext(pool, k, addr, n, flags, was);
      }
    }

    /** One round of that loop after n pages, and how many there are then. */
    method AddNext(pool: Pool, k: nat, addr: nat, n: nat, flags: nat, ghost was: Found) returns (rc: int, next: nat)
      requires SpaceInv(was.s, was.free) && addr < SPACE && addr % PAGE_SIZE == 0 && n * PAGE_SIZE < SPACE
      requires Adding(pool, was, k, addr, n, flags, 0)
      modifies this, pt, pool`free, pool`heap, pool`refused
      ensures next == (if rc == 0 then n + 1 else n) && Adding(pool, was, k, addr, next, flags, rc)
    {
      ghost var mid, free1, p := View(), pool.free, PageAt(addr, n);
      PageOfWrap(addr, n);
      NextOfRange(addr, n);
      CreatedPages(was.s, mid, k, addr, n, flags);
      NextCost(was.s, was.free, mid, free1, k, mid.vmas[k..k + n], Range(addr, n), p);
      rc := AddPage(pool, k + n, Wrap(addr + n * PAGE_SIZE), flags, 0);
      if rc < 0 { return rc, n; }
      CreatedStep(was.s, mid, View(), k, addr, n, flags);
      TakenStep(was.s, was.free, free1, pool.free, Range(addr, n), p, LeafCost(mid.dir, p));
      RangeStep(addr, n);
      next := n + 1;
    }

    /** Take n areas at position k out again, after they were put into s0. */
    method Rollback(pool: Pool, k: nat, n: nat, ghost s0: Space, ghost free0: set<nat>, ghost heap0: nat)
      returns (panicked: bool)
      requires Valid(pool) && SpaceInv(s0, free0) && k + n <= |vmas| && Grown(s0, View(), k, vmas[k..k + n])
      requires FramesConserved(s0, free0, View(), pool.free) && pool.heap == heap0 + 2 * n
      modifies this, pt, pool`free, pool`heap
      ensures panicked <==> HasTop(old(vmas), k, n)
      ensures !panicked ==> Valid(pool) && View() == s0 && pool.free == free0 && pool.heap == heap0
      ensures !panicked ==> pt.faulted == old(pt.faulted)
      ensures pool.refused == old(pool.refused) && pool.mem == old(pool.mem)
    {
      ghost var mid := View();
      panicked := UnmapAndFree(pool, k, n);
      if !panicked { ShrinkUndoesGrow(s0, free0, mid, View(), pool.free, k, mid.vmas[k..k + n]); }
    }

    /** All the pages, or none; a panic when the last page was among those to be taken out again. */
    method AddAllPages(pool: Pool, k: nat, addr: nat, count: nat, flags: nat) returns (r: Outcome, ghost stop: Stop)
      requires Valid(pool) && k <= |vmas| && addr < SPACE && addr % PAGE_SIZE == 0 && count * PAGE_SIZE < SPACE
      modifies this, pt, pool`free, pool`heap, pool`refused
      ensures StoppedAt(old(Now(pool)), Range(addr, count), stop) && stop.refused == pool.refused
      ensures r == if PastTop(addr, count, stop.n) then Panicked else Returned(stop.rc)
      ensures r.Returned? ==> Valid(pool) && Balanced(pool) && pt.faulted == stop.faulted
      ensures r.Failed() ==> Untouched(pool)
      ensures r.Ok() ==> Created(old(View()), View(), k, addr, count, flags)
    {
      ghost var was := Now(pool);
      var rc, n := AddPages(pool, k, addr, count, flags);
      stop := Stop(n, rc, pool.refused, pt.faulted);
      RangeStopped(was, pool.free, addr, count, stop);
      if rc == 0 { return Returned(0), stop; }
      PagesBefore(n, count);
      RunTop(vmas, k, addr, n);
      var panicked := Rollback(pool, k, n, was.s, was.free, was.heap);
      r := if panicked then Panicked else Returned(rc);
    }

    /**
      Create pages for [addr, addr + len). A failure at any page and at any stage leaves
      the space, the free frames and the heap as they were, unless it comes after the
      last page of the address space was created.
    */
    method CreateUvm(pool: Pool, addr: nat, len: nat, flags: nat) returns (r: Outcome)
      requires Valid(pool) && addr < SPACE && len < SPACE
      modifies this, pt, pool`free, pool`heap, pool`refused
      ensures r.Returned? ==> Valid(pool) && Balanced(pool)
      ensures r.Returned? ==> r.rc in {0, -EINVAL, -EFAULT, -ENOMEM, -EEXIST}
      ensures r == Returned(-EINVAL) <==> len % PAGE_SIZE != 0 || addr % PAGE_SIZE != 0
      ensures r == Returned(-EFAULT) <==> r != Returned(-EINVAL) && len > 0 && PlaceFor(old(vmas), addr, len).None?
      ensures r == Returned(-EEXIST) ==> InTheWay(old(vmas), Range(addr, len / PAGE_SIZE))
      ensures r.Failed() || len == 0 ==> Untouched(pool)
      ensures r.Ok() && len > 0 ==> CreatedAtPlace(old(View()), View(), addr, len, flags)
      ensures pool.refused == old(pool.refused) ==>
                (r.Ok() <==> r != Returned(-EINVAL) && CanCreate(old(View()), old(pool.free), addr, len))
      ensures r.Panicked? ==> PassesTop(old(View()), old(pool.free), addr, len)
      ensures pool.refused == old(pool.refused) ==>
                (r.Panicked? <==> CreatePanics(old(View()), old(pool.free), addr, len))
      ensures r.Returned? ==>
                pt.faulted == (old(pt.faulted) || (pool.refused == old(pool.refused) &&
                                                   CreateFaults(old(View()), old(pool.free), addr, len)))
    {
      ghost var was := Now(pool);
      if len % PAGE_SIZE != 0 || addr % PAGE_SIZE != 0 { return Returned(-EINVAL); }
      if len == 0 { return Returned(0); }
      var place := FindBefore(addr, len);
      if place.None? { return Returned(-EFAULT); }
      WholePages(len);
      ghost var stop;
      r, stop := AddAllPages(pool, place.value, addr, len / PAGE_SIZE, flags);
      CreateOutcome(was, addr, len, stop);
    }

    /** Destroy the pages of [addr, addr + len), which must be consecutive areas of the list. */
    method DestroyUvm(pool: Pool, addr: nat, len: nat) returns (r: Outcome)
      requires Valid(pool) && addr < SPACE && len < SPACE
      modifies this, pt, pool`free, pool`heap
      ensures r == Returned(-EINVAL) <==> len % PAGE_SIZE != 0 || addr % PAGE_SIZE != 0
      ensures r == Returned(-EFAULT) <==> r != Returned(-EINVAL) && !HasRun(old(vmas), addr, len / PAGE_SIZE)
      ensures r.Panicked? <==>
                r != Returned(-EINVAL) && HasRun(old(vmas), addr, len / PAGE_SIZE) && len > 0 && addr + len >= SPACE
      ensures r.Returned? ==> Valid(pool) && Balanced(pool) && r.rc <= 0 && pt.faulted == old(pt.faulted)
      ensures r.Failed() ==> (r.rc == -EINVAL || r.rc == -EFAULT) && Untouched(pool)
      ensures r.Ok() ==> Shrunk(old(View()), View(), FirstAt(old(vmas), addr, 0), len / PAGE_SIZE)
    {
      if len % PAGE_SIZE != 0 || addr % PAGE_SIZE != 0 { return Returned(-EINVAL); }
      var i := FindContinuous(addr, len);
      if i.None? { return Returned(-EFAULT); }
      RunTop(vmas, i.value, addr, len / PAGE_SIZE);
      var panicked := UnmapAndFree(pool, i.value, len / PAGE_SIZE);
      r := if panicked then Panicked else Returned(0);
    }

    /** Destroying what was created restores everything, unless the range reaches the end of the address space. */
    method DestroyCreated(pool: Pool, addr: nat, len: nat, flags: nat, ghost s0: Space, ghost free0: set<nat>)
      returns (r: Outcome)
      requires Valid(pool) && SpaceInv(s0, free0) && addr < SPACE && PAGE_SIZE <= len < SPACE
      requires len % PAGE_SIZE == 0 && addr % PAGE_SIZE == 0
      requires CreatedAtPlace(s0, View(), addr, len, flags) && FramesConserved(s0, free0, View(), pool.free)
      modifies this, pt, pool`free, pool`heap
      ensures r == if addr + len >= SPACE then Panicked else Returned(0)
      ensures r.Ok() ==> Valid(pool) && View() == s0 && pool.free == free0 && Balanced(pool)
    {
      ghost var mid := View();
      CreatedFound(s0, mid, addr, len, flags);
      r := DestroyUvm(pool, addr, len);
      if r.Ok() { DestroyUndoesCreate(s0, free0, mid, View(), pool.free, addr, len, flags); }
    }

    /** What was created can be destroyed, and then everything is as before, exactly if it ends below the top. */
    method CreateThenDestroy(pool: Pool, addr: nat, len: nat, flags: nat) returns (created: Outcome, destroyed: Outcome)
      requires Valid(pool) && addr < SPACE && 0 < len < SPACE
      modifies this, pt, pool`free, pool`heap, pool`refused
      ensures created.Ok() ==> destroyed == if addr + len >= SPACE then Panicked else Returned(0)
      ensures created.Returned? && destroyed.Returned? ==> Valid(pool) && Untouched(pool)
    {
      ghost var s0, free0 := View(), pool.free;
      created := CreateUvm(pool, addr, len, flags);
      if !created.Ok() { return created, Returned(0); }
      OnePageAtLeast(len);
      destroyed := DestroyCreated(pool, addr, len, flags, s0, free0);
    }

    /** Tear the space down: every frame it owned becomes free, every object is freed. */
    method Destroy(pool: Pool) returns (panicked: bool)
      requires Valid(pool) && pool.heap >= 2 * |vmas| + 1
      modifies this, pt, pool`free, pool`heap
      ensures panicked <==> HasTop(old(vmas), 0, |old(vmas)|)
      ensures !panicked ==> pool.Valid() && pool.free == old(pool.free) + old(Owned(View()))
      ensures !panicked ==> pool.heap == old(pool.heap) - 2 * |old(vmas)| - 1
    {
      panicked := UnmapAndFree(pool, 0, |vmas|);
      if panicked { return; }
      EmptyOwned(View(), pool.free);
      pool.PgFree(root);
      pool.KFree();
    }
  }
}
