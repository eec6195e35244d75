/**
  The area list as a value: where a search stops, what a call adds to it or takes out
  of it, and what that costs in frames. Pointer arithmetic wraps at 32 bits.
*/
module Areas {
  import opened Common
  import opened FramePool
  import opened PageTable
  import opened Space

  // ----- finding a place in the list

  /** The first position at or after i whose area starts at or above a. */
  ghost function FirstAbove(vmas: seq<Vma>, a: nat, i: nat): (r: nat)
    requires i <= |vmas|
    ensures i <= r <= |vmas|
    ensures forall j | i <= j < r :: vmas[j].start < a
    ensures r < |vmas| ==> vmas[r].start >= a
    decreases |vmas| - i
  {
    if i == |vmas| || vmas[i].start >= a then i else FirstAbove(vmas, a, i + 1)
  }

  /** Where new areas for [addr, addr + size) would go; none if the area before reaches into them. */
  ghost function PlaceFor(vmas: seq<Vma>, addr: nat, size: nat): (r: Option<nat>)
    ensures r.Some? ==> r.value <= |vmas|
  {
    var j := FirstAbove(vmas, Wrap(addr + size), 0);
    if j > 0 && addr < Wrap(vmas[j - 1].start + vmas[j - 1].size) then None else Some(j)
  }

  /** The first position at or after i whose area starts at a. */
  ghost function FirstAt(vmas: seq<Vma>, a: nat, i: nat): (r: nat)
    requires i <= |vmas|
    ensures i <= r <= |vmas|
    ensures forall j | i <= j < r :: vmas[j].start != a
    ensures r < |vmas| ==> vmas[r].start == a
    decreases |vmas| - i
  {
    if i == |vmas| || vmas[i].start == a then i else FirstAt(vmas, a, i + 1)
  }

  /** The n areas from position i start at consecutive pages from addr. */
  ghost predicate RunAt(vmas: seq<Vma>, i: nat, addr: nat, n: nat)
  {
    i + n <= |vmas| && forall j | i <= j < i + n :: vmas[j].start == Wrap(addr + (j - i) * PAGE_SIZE)
  }

  /** `t` is `s` with n pages from addr on, with the given flags, inserted at position k. */
  ghost predicate Created(s: Space, t: Space, k: nat, addr: nat, n: nat, flags: nat)
  {
    && k + n <= |t.vmas|
    && Grown(s, t, k, t.vmas[k..k + n])
    && RunAt(t.vmas, k, addr, n)
    && forall v | v in t.vmas[k..k + n] :: v.flags == flags && v.pages.flags == 0
  }

  /** `t` is `s` with the pages of [addr, addr + len) inserted at the place found for them. */
  ghost predicate CreatedAtPlace(s: Space, t: Space, addr: nat, len: nat, flags: nat)
  {
    && PlaceFor(s.vmas, addr, len).Some?
    && Created(s, t, PlaceFor(s.vmas, addr, len).value, addr, len / PAGE_SIZE, flags)
  }

  /** The areas that start at addr and follow in the list are n consecutive pages. */
  ghost predicate HasRun(vmas: seq<Vma>, addr: nat, n: nat)
  {
    FirstAt(vmas, addr, 0) < |vmas| && RunAt(vmas, FirstAt(vmas, addr, 0), addr, n)
  }

  /** A run of pages in the list is found, where it is. */
  lemma RunFound(vmas: seq<Vma>, k: nat, addr: nat, n: nat)
    requires VmasOk(vmas) && RunAt(vmas, k, addr, n) && n > 0 && addr < SPACE
    ensures FirstAt(vmas, addr, 0) == k && HasRun(vmas, addr, n)
  {
    RunArea(vmas, k, addr, n, 0);
    FirstAtUnique(vmas, k);
  }

  lemma RunArea(vmas: seq<Vma>, k: nat, addr: nat, n: nat, j: nat)
    requires RunAt(vmas, k, addr, n) && j < n
    ensures vmas[k + j].start == Wrap(addr + j * PAGE_SIZE)
  {
  }

  /** Destroying what was created finds it. */
  lemma CreatedFound(s: Space, mid: Space, addr: nat, len: nat, flags: nat)
    requires CreatedAtPlace(s, mid, addr, len, flags) && VmasOk(mid.vmas) && addr < SPACE && len >= PAGE_SIZE
    ensures HasRun(mid.vmas, addr, len / PAGE_SIZE) && FirstAt(mid.vmas, addr, 0) == PlaceFor(s.vmas, addr, len).value
  {
    RunFound(mid.vmas, PlaceFor(s.vmas, addr, len).value, addr, len / PAGE_SIZE);
  }

  /** Destroying what was created restores the list, the page table and the free frames. */
  lemma DestroyUndoesCreate(s: Space, free: set<nat>, mid: Space, t: Space, free': set<nat>, addr: nat, len: nat,
                            flags: nat)
    requires SpaceInv(s, free) && VmasOk(mid.vmas) && SpaceInv(t, free') && addr < SPACE && len >= PAGE_SIZE
    requires CreatedAtPlace(s, mid, addr, len, flags)
    requires Shrunk(mid, t, FirstAt(mid.vmas, addr, 0), len / PAGE_SIZE) && FramesConserved(s, free, t, free')
    ensures t == s && free' == free
  {
    CreatedFound(s, mid, addr, len, flags);
    UndoesCreated(s, free, mid, t, free', PlaceFor(s.vmas, addr, len).value, addr, len / PAGE_SIZE, flags);
  }

  lemma UndoesCreated(s: Space, free: set<nat>, mid: Space, t: Space, free': set<nat>,
                      k: nat, addr: nat, n: nat, flags: nat)
    requires SpaceInv(s, free) && SpaceInv(t, free') && Created(s, mid, k, addr, n, flags) && Shrunk(mid, t, k, n)
    requires FramesConserved(s, free, t, free')
    ensures t == s && free' == free
  {
    ShrinkUndoesGrow(s, free, mid, t, free', k, mid.vmas[k..k + n]);
  }

  lemma FirstAtUnique(vmas: seq<Vma>, k: nat)
    requires VmasOk(vmas) && k < |vmas|
    ensures FirstAt(vmas, vmas[k].start, 0) == k
  {
  }

  lemma CreatedStep(s: Space, mid: Space, t: Space, k: nat, addr: nat, n: nat, flags: nat)
    requires Created(s, mid, k, addr, n, flags) && k + n < |t.vmas|
    requires Grown(mid, t, k + n, [t.vmas[k + n]])
    requires t.vmas[k + n].start == Wrap(addr + n * PAGE_SIZE)
    requires t.vmas[k + n].flags == flags && t.vmas[k + n].pages.flags == 0
    ensures Created(s, t, k, addr, n + 1, flags)
  {
    var added, v := mid.vmas[k..k + n], t.vmas[k + n];
    InsertedAfter(s.vmas, mid.vmas, t.vmas, k, added, v);
    RunAtStep(mid.vmas, t.vmas, k, addr, n);
    assert t.vmas[k..k + n + 1] == added + [v];
  }

  lemma InsertedAfter(a: seq<Vma>, b: seq<Vma>, c: seq<Vma>, k: nat, added: seq<Vma>, v: Vma)
    requires k <= |a| && b == a[..k] + added + a[k..]
    requires c == b[..k + |added|] + [v] + b[k + |added|..]
    ensures c == a[..k] + (added + [v]) + a[k..]
  {
  }

  lemma RunAtStep(a: seq<Vma>, b: seq<Vma>, k: nat, addr: nat, n: nat)
    requires RunAt(a, k, addr, n) && k + n < |b| && b[k + n].start == Wrap(addr + n * PAGE_SIZE)
    requires a[..k + n] == b[..k + n]
    ensures RunAt(b, k, addr, n + 1)
  {
    assert forall j | k <= j < k + n :: b[j] == a[..k + n][j];
  }

  lemma CreatedNothing(s: Space, k: nat, addr: nat, flags: nat)
    requires k <= |s.vmas|
    ensures Created(s, s, k, addr, 0, flags)
  {
  }

  lemma ShrunkStep(s: Space, mid: Space, t: Space, k: nat, n: nat)
    requires Shrunk(s, mid, k, n) && Shrunk(mid, t, k, 1)
    ensures Shrunk(s, t, k, n + 1)
  {
  }

  lemma ShrunkNext(s: Space, mid: Space, k: nat, n: nat)
    requires Shrunk(s, mid, k, n) && k + n < |s.vmas|
    ensures k < |mid.vmas| && mid.vmas[k] == s.vmas[k + n]
  {
  }

  lemma PutBack(free: set<nat>, f: nat)
    requires f in free
    ensures free - {f} + {f} == free
  {
  }

  lemma PageOfWrap(addr: nat, n: nat)
    requires addr % PAGE_SIZE == 0
    ensures Wrap(addr + n * PAGE_SIZE) < SPACE && Wrap(addr + n * PAGE_SIZE) % PAGE_SIZE == 0
  {
  }

  lemma StartFits(start: nat)
    requires start < SPACE && start % PAGE_SIZE == 0
    ensures start + PAGE_SIZE <= SPACE
  {
  }

  lemma EmptyInv(s: Space, free: set<nat>)
    requires s.vmas == [] && |s.dir| == ENTRIES && (forall i | 0 <= i < ENTRIES :: s.dir[i].None?)
    requires IsFrame(s.root) && s.root !in free
    ensures SpaceInv(s, free) && Owned(s) == {s.root}
  {
  }

  /** Without areas there are no leaf tables: only the directory is left. */
  lemma EmptyOwned(s: Space, free: set<nat>)
    requires SpaceInv(s, free) && s.vmas == []
    ensures Owned(s) == {s.root}
  {
    assert Flat(s.dir) == map[] by { assert forall p | p in Flat(s.dir) :: HasPage(s.vmas, p); }
    forall i | 0 <= i < ENTRIES
      ensures s.dir[i].None?
    {
      LeafIffMapped(s.dir, i);
    }
  }

  // ----- pages to be added, their leaves and their frames

  /** The page number of page j of a range at addr. */
  function PageAt(addr: nat, j: nat): (r: nat)
    ensures r < PAGES
  {
    Wrap(addr + j * PAGE_SIZE) / PAGE_SIZE
  }

  /** The pages of a range, in order. */
  ghost function Range(addr: nat, n: nat): (r: seq<nat>)
    ensures |r| == n && forall j | 0 <= j < n :: r[j] == PageAt(addr, j)
  {
    seq(n, j requires 0 <= j < n => PageAt(addr, j))
  }

  /** The pages of areas, in order. */
  ghost function PagesOf(vmas: seq<Vma>): (r: seq<nat>)
    ensures |r| == |vmas| && forall j | 0 <= j < |vmas| :: r[j] == vmas[j].Page()
  {
    seq(|vmas|, j requires 0 <= j < |vmas| => vmas[j].Page())
  }

  /** Some of the pages falls under directory slot i. */
  ghost predicate UsesSlot(pages: seq<nat>, i: nat)
  {
    exists p :: p in pages && p / ENTRIES == i
  }

  /** The leaves that the pages need and the table does not have. */
  ghost function NewSlots(dir: Directory, pages: seq<nat>): set<nat>
  {
    set i: nat | i < |dir| && UsesSlot(pages, i) && dir[i].None?
  }

  /** Some of the pages has an area already. */
  ghost predicate InTheWay(vmas: seq<Vma>, pages: seq<nat>)
  {
    exists p :: p in pages && HasPage(vmas, p)
  }

  /** The pages can be had: nothing is in the way, and there are frames for them and their leaves. */
  ghost predicate CanAdd(s: Space, free: set<nat>, pages: seq<nat>)
  {
    !InTheWay(s.vmas, pages) && |pages| + |NewSlots(s.dir, pages)| <= |free|
  }

  lemma NewSlotsGrow(dir: Directory, a: seq<nat>, b: seq<nat>)
    requires a <= b
    ensures |NewSlots(dir, a)| <= |NewSlots(dir, b)|
  {
    forall i | i in NewSlots(dir, a)
      ensures i in NewSlots(dir, b)
    {
      var p :| p in a && p / ENTRIES == i;
      assert p in b;
    }
    SmallerSet(NewSlots(dir, a), NewSlots(dir, b));
  }

  /** What can be had with more pages can be had with fewer. */
  lemma CanAddFewer(s: Space, free: set<nat>, a: seq<nat>, b: seq<nat>)
    requires a <= b && CanAdd(s, free, b)
    ensures CanAdd(s, free, a)
  {
    NewSlotsGrow(s.dir, a, b);
    assert forall p | p in a :: p in b;
  }

  /** The leaves after areas were added: those there were, and those of the new pages. */
  lemma SlotAfterGrow(s: Space, free: set<nat>, t: Space, free': set<nat>, k: nat, added: seq<Vma>, i: nat)
    requires SpaceInv(s, free) && SpaceInv(t, free') && Grown(s, t, k, added) && i < ENTRIES
    ensures t.dir[i].Some? <==> s.dir[i].Some? || UsesSlot(PagesOf(added), i)
  {
    if t.dir[i].Some? {
      var w := AreaUnder(t, free', i);
      OldOrAdded(s, t, k, added, w);
      if w in s.vmas { LeafOfArea(s, free, w); }
    }
    if UsesSlot(PagesOf(added), i) {
      var w := AddedUnder(s, t, k, added, i);
      LeafOfArea(t, free', w);
    }
  }

  lemma AddedUnder(s: Space, t: Space, k: nat, added: seq<Vma>, i: nat) returns (w: Vma)
    requires Grown(s, t, k, added) && UsesSlot(PagesOf(added), i)
    ensures w in t.vmas && w.Page() / ENTRIES == i
  {
    var j :| 0 <= j < |added| && PagesOf(added)[j] / ENTRIES == i;
    w := t.vmas[k + j];
  }

  /** A leaf is there for some area. */
  lemma AreaUnder(s: Space, free: set<nat>, i: nat) returns (w: Vma)
    requires SpaceInv(s, free) && i < ENTRIES && s.dir[i].Some?
    ensures w in s.vmas && w.Page() / ENTRIES == i
  {
    LeafIffMapped(s.dir, i);
    var v :| v in Flat(s.dir) && v / ENTRIES == i;
    w :| w in s.vmas && w.Page() == v;
  }

  /** Every area has its leaf. */
  lemma LeafOfArea(s: Space, free: set<nat>, w: Vma)
    requires SpaceInv(s, free) && w in s.vmas
    ensures w.Page() / ENTRIES < ENTRIES && s.dir[w.Page() / ENTRIES].Some?
  {
    assert MapsTo(Flat(s.dir), w);
    LeafIffMapped(s.dir, w.Page() / ENTRIES);
  }

  /** An area of the list was there before or is one of the new ones. */
  lemma OldOrAdded(s: Space, t: Space, k: nat, added: seq<Vma>, w: Vma)
    requires Grown(s, t, k, added) && w in t.vmas
    ensures w in s.vmas || w.Page() in PagesOf(added)
  {
    if w !in s.vmas {
      var j :| 0 <= j < |added| && added[j] == w;
      assert PagesOf(added)[j] == w.Page();
    }
  }

  /** A page that is not among the new ones has an area exactly if it had one before. */
  lemma StillThere(s: Space, t: Space, k: nat, added: seq<Vma>, p: nat)
    requires Grown(s, t, k, added) && p !in PagesOf(added)
    ensures HasPage(t.vmas, p) <==> HasPage(s.vmas, p)
  {
    if HasPage(t.vmas, p) {
      var w :| w in t.vmas && w.Page() == p;
      OldOrAdded(s, t, k, added, w);
    }
    if HasPage(s.vmas, p) {
      var w :| w in s.vmas && w.Page() == p;
      assert s.vmas == s.vmas[..k] + s.vmas[k..];
      assert w in t.vmas;
    }
  }

  lemma NewSlotsStep(dir: Directory, now: Directory, pages: seq<nat>, p: nat)
    requires WellFormed(dir) && WellFormed(now) && p < PAGES
    requires forall i: nat | i < ENTRIES :: now[i].Some? <==> dir[i].Some? || UsesSlot(pages, i)
    ensures |NewSlots(dir, pages + [p])| == |NewSlots(dir, pages)| + LeafCost(now, p)
  {
    var i := p / ENTRIES;
    forall x: nat
      ensures UsesSlot(pages + [p], x) <==> UsesSlot(pages, x) || x == i
    {
      if UsesSlot(pages, x) { var q :| q in pages && q / ENTRIES == x; assert q in pages + [p]; }
      if x == i { assert p in pages + [p]; }
    }
    if now[i].None? {
      assert NewSlots(dir, pages + [p]) == NewSlots(dir, pages) + {i};
    } else {
      assert NewSlots(dir, pages + [p]) == NewSlots(dir, pages);
    }
  }

  // ----- how many frames there can be

  /** The slots that the pages fall under. */
  ghost function Slots(pages: seq<nat>): set<nat>
  {
    set p | p in pages :: p / ENTRIES
  }

  lemma {:induction false} FewSlots(pages: seq<nat>)
    ensures |Slots(pages)| <= |pages|
  {
    if pages != [] {
      var p, rest := pages[0], pages[1..];
      FewSlots(rest);
      assert pages == [p] + rest;
      forall i | i in Slots(pages)
        ensures i in Slots(rest) + {p / ENTRIES}
      {
        var q :| q in pages && q / ENTRIES == i;
      }
      SmallerSet(Slots(pages), Slots(rest) + {p / ENTRIES});
    }
  }

  /** Pages need at most one new leaf each. */
  lemma FewNewSlots(dir: Directory, pages: seq<nat>)
    ensures |NewSlots(dir, pages)| <= |pages|
  {
    FewSlots(pages);
    SmallerSet(NewSlots(dir, pages), Slots(pages));
  }

  lemma {:induction false} FewDataFrames(vmas: seq<Vma>)
    ensures |DataFrames(vmas)| <= |vmas|
  {
    if vmas != [] {
      var v, rest := vmas[0], vmas[1..];
      FewDataFrames(rest);
      assert vmas == [v] + rest;
      assert DataFrames(vmas) == DataFrames(rest) + {v.pages.paddr};
    }
  }

  ghost function LeafSlots(dir: Directory): set<nat>
  {
    set i: nat | i < |dir| && dir[i].Some?
  }

  /** There are as many leaf frames as leaves. */
  lemma {:induction false} LeafCount(dir: Directory, slots: set<nat>, frames: set<nat>)
    requires DistinctFrames(dir) && slots <= LeafSlots(dir)
    requires forall f :: f in frames <==> exists i | i in slots && i < |dir| && dir[i].Some? :: dir[i].value.frame == f
    ensures |frames| == |slots|
  {
    if slots == {} {
      assert frames == {};
    } else {
      var i :| i in slots;
      var f := dir[i].value.frame;
      assert f in frames;
      LeafCount(dir, slots - {i}, frames - {f});
    }
  }

  /** A space owns at most two frames for each area, and its directory. */
  lemma FewOwned(s: Space, free: set<nat>)
    requires SpaceInv(s, free)
    ensures |Owned(s)| <= 2 * |s.vmas| + 1
  {
    FewDataFrames(s.vmas);
    LeafCount(s.dir, LeafSlots(s.dir), LeafFrames(s.dir));
    forall i | i in LeafSlots(s.dir)
      ensures i in Slots(PagesOf(s.vmas))
    {
      var w := AreaUnder(s, free, i);
      var j :| 0 <= j < |s.vmas| && s.vmas[j] == w;
      assert PagesOf(s.vmas)[j] in PagesOf(s.vmas);
    }
    SmallerSet(LeafSlots(s.dir), Slots(PagesOf(s.vmas)));
    FewSlots(PagesOf(s.vmas));
  }

  // ----- adding pages one by one

  /** The pages were free to take, and were taken with the leaves they need. */
  ghost predicate Taken(s: Space, free: set<nat>, free': set<nat>, pages: seq<nat>)
  {
    !InTheWay(s.vmas, pages) && |free'| + |pages| + |NewSlots(s.dir, pages)| == |free|
  }

  lemma TakenNothing(s: Space, free: set<nat>, addr: nat)
    ensures Range(addr, 0) == [] && Taken(s, free, free, [])
  {
    assert NewSlots(s.dir, []) == {};
  }

  lemma TakenStep(s: Space, free: set<nat>, free1: set<nat>, free2: set<nat>, pages: seq<nat>, p: nat, cost: nat)
    requires Taken(s, free, free1, pages) && !HasPage(s.vmas, p) && |free2| + 1 + cost == |free1|
    requires |NewSlots(s.dir, pages + [p])| == |NewSlots(s.dir, pages)| + cost
    ensures Taken(s, free, free2, pages + [p])
  {
  }

  /** Adding page v as the next one reads through an absent leaf. */
  ghost predicate PageFaults(dir: Directory, free: set<nat>, v: nat)
    requires WellFormed(dir) && v < PAGES
  {
    free != {} && ReadsAbsent(dir, v) && (v in Flat(dir) || (dir[v / ENTRIES].None? && |free| == 1))
  }

  /** Once the pages have been added, slot i still has no leaf. */
  ghost predicate StillEmpty(dir: Directory, pages: seq<nat>, i: nat)
  {
    i < |dir| && dir[i].None? && !UsesSlot(pages, i)
  }

  /**
    After the pages have been added, adding page p reads through an absent leaf. For
    p > 0: its leaf is absent and p does not start it, and just one frame is left.
  */
  ghost predicate FaultsAt(s: Space, free: set<nat>, pages: seq<nat>, p: nat)
  {
    var used := |pages| + |NewSlots(s.dir, pages)|;
    && CanAdd(s, free, pages)
    && used < |free|
    && (if p == 0 then exists i: nat :: StillEmpty(s.dir, pages, i)
        else p % ENTRIES != 0 && StillEmpty(s.dir, pages, p / ENTRIES))
    && (HasPage(s.vmas, p) || (StillEmpty(s.dir, pages, p / ENTRIES) && used + 1 == |free|))
  }

  /** What the next page costs, and when it faults, in terms of the space before any was added. */
  lemma NextCost(s: Space, free: set<nat>, t: Space, free': set<nat>, k: nat, added: seq<Vma>, pages: seq<nat>, p: nat)
    requires SpaceInv(s, free) && SpaceInv(t, free') && Grown(s, t, k, added) && PagesOf(added) == pages
    requires Taken(s, free, free', pages) && p < PAGES && p !in pages
    ensures |NewSlots(s.dir, pages + [p])| == |NewSlots(s.dir, pages)| + LeafCost(t.dir, p)
    ensures HasPage(t.vmas, p) <==> HasPage(s.vmas, p)
    ensures PageFaults(t.dir, free', p) <==> FaultsAt(s, free, pages, p)
  {
    forall i: nat | i < ENTRIES
      ensures t.dir[i].Some? <==> s.dir[i].Some? || UsesSlot(pages, i)
    {
      SlotAfterGrow(s, free, t, free', k, added, i);
    }
    NewSlotsStep(s.dir, t.dir, pages, p);
    StillThere(s, t, k, added, p);
    MappedIff(t, free', p);
    SameFaults(s, free, t.dir, free', pages, p);
  }

  lemma SameFaults(s: Space, free: set<nat>, now: Directory, free': set<nat>, pages: seq<nat>, p: nat)
    requires WellFormed(s.dir) && WellFormed(now) && Taken(s, free, free', pages) && p < PAGES
    requires forall i: nat | i < ENTRIES :: now[i].Some? <==> s.dir[i].Some? || UsesSlot(pages, i)
    requires p in Flat(now) <==> HasPage(s.vmas, p)
    ensures PageFaults(now, free', p) <==> FaultsAt(s, free, pages, p)
  {
    forall i: nat | i < ENTRIES
      ensures now[i].None? <==> StillEmpty(s.dir, pages, i)
    {
    }
    assert SomeSlotEmpty(now) <==> exists i: nat :: StillEmpty(s.dir, pages, i);
  }

  /** Why page p could not be added after the pages. */
  ghost predicate Stuck(s: Space, free: set<nat>, pages: seq<nat>, p: nat, rc: int, refused: bool)
  {
    && (rc == -ENOMEM || rc == -EEXIST)
    && (rc == -EEXIST ==> HasPage(s.vmas, p))
    && (rc == -ENOMEM && !refused ==> |pages| + 1 + |NewSlots(s.dir, pages + [p])| > |free|)
  }

  /** What a call found: the space, the free frames, the live objects, and what had gone wrong before. */
  datatype Found = Found(s: Space, free: set<nat>, heap: nat, refused: nat, faulted: bool)

  /** After the pages the loop goes on, or has stopped at page p with an error and perhaps a fault. */
  ghost predicate GoesOn(was: Found, pages: seq<nat>, p: nat, rc: int, refused: nat, faulted: bool)
  {
    if rc == 0 then refused == was.refused && faulted == was.faulted
    else
      && Stuck(was.s, was.free, pages, p, rc, refused != was.refused)
      && faulted == (was.faulted || (refused == was.refused && FaultsAt(was.s, was.free, pages, p)))
  }

  /** Where the loop over the pages stopped, and why. */
  ghost predicate Stopped(s: Space, free: set<nat>, pages: seq<nat>, n: nat, rc: int, refused: bool)
  {
    && n <= |pages| && (rc == 0 <==> n == |pages|) && CanAdd(s, free, pages[..n])
    && (rc < 0 ==> Stuck(s, free, pages[..n], pages[n], rc, refused))
    && (rc == 0 ==> !refused)
  }

  /** How such a loop ended: after n pages, with a code, and what had then gone wrong. */
  datatype Stop = Stop(n: nat, rc: int, refused: nat, faulted: bool)

  ghost predicate StoppedAt(was: Found, pages: seq<nat>, stop: Stop)
  {
    var refused := stop.refused != was.refused;
    && stop.rc <= 0 && Stopped(was.s, was.free, pages, stop.n, stop.rc, refused)
    && stop.faulted == (was.faulted || (stop.rc < 0 && !refused &&
                                        FaultsAt(was.s, was.free, pages[..stop.n], pages[stop.n])))
  }

  lemma StuckMeans(s: Space, free: set<nat>, pages: seq<nat>, p: nat, rc: int, refused: bool)
    requires Stuck(s, free, pages, p, rc, refused)
    ensures rc == -EEXIST ==> InTheWay(s.vmas, pages + [p])
    ensures !refused ==> !CanAdd(s, free, pages + [p])
  {
    assert p in pages + [p];
  }

  /** Unless kmalloc failed, the loop stopped after the largest number of pages that can be had. */
  lemma StoppedIff(s: Space, free: set<nat>, pages: seq<nat>, n: nat, rc: int, refused: bool, m: nat)
    requires Stopped(s, free, pages, n, rc, refused) && rc <= 0 && m <= |pages|
    ensures m <= n ==> CanAdd(s, free, pages[..m])
    ensures !refused ==> (CanAdd(s, free, pages[..m]) <==> m <= n)
  {
    if m <= n {
      CanAddFewer(s, free, pages[..m], pages[..n]);
    } else {
      StuckMeans(s, free, pages[..n], pages[n], rc, refused);
      assert pages[..n] + [pages[n]] == pages[..n + 1];
      if CanAdd(s, free, pages[..m]) { CanAddFewer(s, free, pages[..n + 1], pages[..m]); }
    }
  }

  /** The loop is done exactly if all the pages can be had, unless kmalloc failed. */
  lemma StoppedAll(s: Space, free: set<nat>, pages: seq<nat>, n: nat, rc: int, refused: bool)
    requires Stopped(s, free, pages, n, rc, refused) && rc <= 0
    ensures rc == 0 ==> CanAdd(s, free, pages)
    ensures !refused ==> (CanAdd(s, free, pages) <==> rc == 0)
    ensures rc == -EEXIST ==> InTheWay(s.vmas, pages)
  {
    StoppedIff(s, free, pages, n, rc, refused, |pages|);
    assert pages[..|pages|] == pages;
  }

  /** A page that faults cannot be had. */
  lemma FaultStops(s: Space, free: set<nat>, pages: seq<nat>, p: nat)
    requires WellFormed(s.dir) && p < PAGES && FaultsAt(s, free, pages, p)
    ensures CanAdd(s, free, pages) && !CanAdd(s, free, pages + [p])
  {
    assert p in pages + [p];
    if StillEmpty(s.dir, pages, p / ENTRIES) {
      NewSlotsGrow(s.dir, pages, pages + [p]);
      assert UsesSlot(pages + [p], p / ENTRIES);
      assert p / ENTRIES in NewSlots(s.dir, pages + [p]) && p / ENTRIES !in NewSlots(s.dir, pages);
      MoreSlots(s.dir, pages, p);
    }
  }

  lemma MoreSlots(dir: Directory, pages: seq<nat>, p: nat)
    requires StillEmpty(dir, pages, p / ENTRIES)
    ensures |NewSlots(dir, pages)| < |NewSlots(dir, pages + [p])|
  {
    var a, b := NewSlots(dir, pages), NewSlots(dir, pages + [p]);
    forall i | i in a
      ensures i in b
    {
      var q :| q in pages && q / ENTRIES == i;
      assert q in pages + [p];
    }
    assert p in pages + [p] && p / ENTRIES in b;
    SmallerSet(a, b);
  }

  /** If any page of the list faults, the loop stopped at it, unless kmalloc failed before. */
  lemma FaultsWhereStopped(s: Space, free: set<nat>, pages: seq<nat>, n: nat, rc: int, refused: bool, j: nat)
    requires Stopped(s, free, pages, n, rc, refused) && rc <= 0 && !refused && j < |pages| && WellFormed(s.dir)
    requires pages[j] < PAGES && FaultsAt(s, free, pages[..j], pages[j])
    ensures j == n
  {
    FaultStops(s, free, pages[..j], pages[j]);
    assert pages[..j] + [pages[j]] == pages[..j + 1];
    StoppedIff(s, free, pages, n, rc, refused, j);
    StoppedIff(s, free, pages, n, rc, refused, j + 1);
  }

  // ----- a range of pages

  /** The first pages of a range are a range. */
  lemma RangePrefix(addr: nat, n: nat, m: nat)
    requires m <= n
    ensures Range(addr, n)[..m] == Range(addr, m)
  {
  }

  lemma RangeStep(addr: nat, n: nat)
    ensures Range(addr, n + 1) == Range(addr, n) + [PageAt(addr, n)]
  {
  }

  /** Pages of a range shorter than the address space are all different. */
  lemma PagesOfRange(addr: nat, i: nat, j: nat)
    requires addr < SPACE && addr % PAGE_SIZE == 0 && i < j && j * PAGE_SIZE < SPACE
    ensures PageAt(addr, i) != PageAt(addr, j)
  {
    PageOfWrap(addr, i);
    PageOfWrap(addr, j);
  }

  lemma NextOfRange(addr: nat, n: nat)
    requires addr < SPACE && addr % PAGE_SIZE == 0 && n * PAGE_SIZE < SPACE
    ensures PageAt(addr, n) !in Range(addr, n)
  {
    forall j: nat | j < n
      ensures PageAt(addr, j) != PageAt(addr, n)
    {
      PagesOfRange(addr, j, n);
    }
  }

  lemma CreatedPages(s: Space, t: Space, k: nat, addr: nat, n: nat, flags: nat)
    requires Created(s, t, k, addr, n, flags)
    ensures PagesOf(t.vmas[k..k + n]) == Range(addr, n)
  {
    forall j: nat | j < n
      ensures t.vmas[k..k + n][j].Page() == PageAt(addr, j)
    {
      RunArea(t.vmas, k, addr, n, j);
    }
  }

  lemma RangeStopped(was: Found, free: set<nat>, addr: nat, count: nat, stop: Stop)
    requires Taken(was.s, was.free, free, Range(addr, stop.n)) && stop.rc <= 0
    requires stop.n <= count && (stop.rc == 0 <==> stop.n == count)
    requires GoesOn(was, Range(addr, stop.n), PageAt(addr, stop.n), stop.rc, stop.refused, stop.faulted)
    ensures StoppedAt(was, Range(addr, count), stop)
  {
    RangePrefix(addr, count, stop.n);
  }

  ghost predicate CanCreate(s: Space, free: set<nat>, addr: nat, len: nat)
  {
    len == 0 || (PlaceFor(s.vmas, addr, len).Some? && CanAdd(s, free, Range(addr, len / PAGE_SIZE)))
  }

  /** The number of pages from addr to the end of the address space. */
  function PagesToTop(addr: nat): (r: nat)
    requires addr < SPACE
  {
    (SPACE - addr) / PAGE_SIZE
  }

  /** A creation gets as far as the last page of the address space, and has more to do. */
  ghost predicate PassesTop(s: Space, free: set<nat>, addr: nat, len: nat)
  {
    && addr < SPACE && addr % PAGE_SIZE == 0 && len % PAGE_SIZE == 0 && PlaceFor(s.vmas, addr, len).Some?
    && PagesToTop(addr) < len / PAGE_SIZE && CanAdd(s, free, Range(addr, PagesToTop(addr)))
  }

  /** What stops the kernel in a creation: it passes the last page and cannot be completed. */
  ghost predicate CreatePanics(s: Space, free: set<nat>, addr: nat, len: nat)
  {
    PassesTop(s, free, addr, len) && !CanAdd(s, free, Range(addr, len / PAGE_SIZE))
  }

  /** A creation reads through an absent leaf: at its first page. */
  ghost predicate CreateFaults(s: Space, free: set<nat>, addr: nat, len: nat)
  {
    && len > 0 && addr % PAGE_SIZE == 0 && len % PAGE_SIZE == 0 && PlaceFor(s.vmas, addr, len).Some?
    && FaultsAt(s, free, [], addr / PAGE_SIZE)
  }

  /** Away from the first page, a page of the range starts its leaf or finds it there. */
  lemma LaterPagesSafe(s: Space, free: set<nat>, addr: nat, n: nat)
    requires addr % PAGE_SIZE == 0 && n > 0 && PageAt(addr, n) > 0
    ensures !FaultsAt(s, free, Range(addr, n), PageAt(addr, n))
  {
    if PageAt(addr, n) % ENTRIES != 0 {
      SamePageLeaf(addr, n);
      assert Range(addr, n)[n - 1] in Range(addr, n);
      assert UsesSlot(Range(addr, n), PageAt(addr, n) / ENTRIES);
    }
  }

  lemma SamePageLeaf(addr: nat, n: nat)
    requires addr % PAGE_SIZE == 0 && n > 0 && PageAt(addr, n) % ENTRIES != 0
    ensures PageAt(addr, n - 1) / ENTRIES == PageAt(addr, n) / ENTRIES
  {
    WrapBack(addr + n * PAGE_SIZE);
    PrevSlot(PageAt(addr, n));
  }

  lemma WrapBack(a: nat)
    requires a >= PAGE_SIZE && Wrap(a) / PAGE_SIZE > 0
    ensures Wrap(a - PAGE_SIZE) / PAGE_SIZE == Wrap(a) / PAGE_SIZE - 1
  {
  }

  lemma PrevSlot(v: nat)
    requires v % ENTRIES != 0
    ensures (v - 1) / ENTRIES == v / ENTRIES
  {
  }

  lemma TopReached(addr: nat, n: nat)
    requires addr < SPACE && addr % PAGE_SIZE == 0
    ensures PagesToTop(addr) > 0 && (addr + n * PAGE_SIZE >= SPACE <==> PagesToTop(addr) <= n)
    ensures 0 < n < PagesToTop(addr) ==> PageAt(addr, n) > 0
  {
  }

  /** The loop of a creation stopped too late to be undone. */
  predicate PastTop(addr: nat, count: nat, n: nat)
  {
    0 < n < count && addr + n * PAGE_SIZE >= SPACE
  }

  /** When a creation panics: it has passed the last page, and unless kmalloc failed, could not be completed. */
  lemma CreatePanicsIff(s: Space, free: set<nat>, addr: nat, len: nat, n: nat, rc: int, refused: bool)
    requires addr < SPACE && addr % PAGE_SIZE == 0 && len % PAGE_SIZE == 0 && PlaceFor(s.vmas, addr, len).Some?
    requires Stopped(s, free, Range(addr, len / PAGE_SIZE), n, rc, refused) && rc <= 0
    ensures PastTop(addr, len / PAGE_SIZE, n) ==> PassesTop(s, free, addr, len)
    ensures !refused ==> (PastTop(addr, len / PAGE_SIZE, n) <==> CreatePanics(s, free, addr, len))
  {
    var count, m := len / PAGE_SIZE, PagesToTop(addr);
    TopReached(addr, n);
    StoppedAll(s, free, Range(addr, count), n, rc, refused);
    if m < count {
      StoppedIff(s, free, Range(addr, count), n, rc, refused, m);
      RangePrefix(addr, count, m);
    }
  }

  /** When the loop of a creation that is not past the top has faulted: at the first page. */
  lemma CreateFaultsIff(s: Space, free: set<nat>, addr: nat, count: nat, n: nat, rc: int, refused: bool)
    requires WellFormed(s.dir) && addr < SPACE && addr % PAGE_SIZE == 0 && count > 0 && !PastTop(addr, count, n)
    requires Stopped(s, free, Range(addr, count), n, rc, refused) && rc <= 0 && !refused
    ensures rc < 0 && FaultsAt(s, free, Range(addr, n), PageAt(addr, n)) <==> FaultsAt(s, free, [], addr / PAGE_SIZE)
  {
    RangeStart(addr, count);
    if FaultsAt(s, free, [], addr / PAGE_SIZE) {
      FaultsWhereStopped(s, free, Range(addr, count), n, rc, refused, 0);
    } else if 0 < n && rc < 0 {
      TopReached(addr, n);
      LaterPagesSafe(s, free, addr, n);
    }
  }

  lemma RangeStart(addr: nat, count: nat)
    requires addr < SPACE && count > 0
    ensures Range(addr, 0) == [] && Range(addr, count)[..0] == []
    ensures Range(addr, count)[0] == PageAt(addr, 0) == addr / PAGE_SIZE
  {
  }

  /** What became of a creation whose loop has stopped. */
  lemma CreateOutcome(was: Found, addr: nat, len: nat, stop: Stop)
    requires WellFormed(was.s.dir) && addr < SPACE && addr % PAGE_SIZE == 0 && len > 0 && len % PAGE_SIZE == 0
    requires PlaceFor(was.s.vmas, addr, len).Some? && StoppedAt(was, Range(addr, len / PAGE_SIZE), stop)
    ensures stop.rc == -EEXIST ==> InTheWay(was.s.vmas, Range(addr, len / PAGE_SIZE))
    ensures PastTop(addr, len / PAGE_SIZE, stop.n) ==> PassesTop(was.s, was.free, addr, len)
    ensures stop.refused == was.refused ==>
              && (PastTop(addr, len / PAGE_SIZE, stop.n) <==> CreatePanics(was.s, was.free, addr, len))
              && (stop.rc == 0 <==> CanCreate(was.s, was.free, addr, len))
    ensures !PastTop(addr, len / PAGE_SIZE, stop.n) ==>
              stop.faulted == (was.faulted || (stop.refused == was.refused && CreateFaults(was.s, was.free, addr, len)))
  {
    var count, refused := len / PAGE_SIZE, stop.refused != was.refused;
    StoppedAll(was.s, was.free, Range(addr, count), stop.n, stop.rc, refused);
    CreatePanicsIff(was.s, was.free, addr, len, stop.n, stop.rc, refused);
    RangePrefix(addr, count, stop.n);
    OnePageAtLeast(len);
    if !refused && !PastTop(addr, count, stop.n) {
      CreateFaultsIff(was.s, was.free, addr, count, stop.n, stop.rc, refused);
    }
  }

  /** Above page 0 a creation faults exactly with one free frame, at a page inside an absent leaf. */
  lemma CreateFaultsAbove(s: Space, free: set<nat>, addr: nat, len: nat)
    requires SpaceInv(s, free) && 0 < addr < SPACE && addr % PAGE_SIZE == 0 && 0 < len && len % PAGE_SIZE == 0
    ensures CreateFaults(s, free, addr, len) <==>
              && PlaceFor(s.vmas, addr, len).Some? && |free| == 1
              && addr / PAGE_SIZE % ENTRIES != 0 && s.dir[addr / PAGE_SIZE / ENTRIES].None?
  {
    var p := addr / PAGE_SIZE;
    assert NewSlots(s.dir, []) == {};
    if HasPage(s.vmas, p) {
      var w :| w in s.vmas && w.Page() == p;
      LeafOfArea(s, free, w);
    }
  }

  ghost predicate EmptySpace(s: Space)
  {
    s.vmas == [] && |s.dir| == ENTRIES && forall i | 0 <= i < ENTRIES :: s.dir[i].None?
  }

  /** With three free frames, creating two pages at 0xFFFFF000 in an empty space panics; with four it does not. */
  lemma PanicsOverTop(s: Space, free: set<nat>)
    requires EmptySpace(s)
    ensures |free| == 3 ==> CreatePanics(s, free, TOP_PAGE, 2 * PAGE_SIZE)
    ensures |free| == 4 ==> !CreatePanics(s, free, TOP_PAGE, 2 * PAGE_SIZE)
  {
    var one, two := Range(TOP_PAGE, 1), Range(TOP_PAGE, 2);
    assert one[0] == PAGES - 1 && two[0] == PAGES - 1 && two[1] == 0;
    assert one == [PAGES - 1] && two == [PAGES - 1, 0];
    OverTopNeeds(s.dir);
  }

  /** The last page and page 0 are under different leaves. */
  lemma OverTopNeeds(dir: Directory)
    requires |dir| == ENTRIES && forall i | 0 <= i < ENTRIES :: dir[i].None?
    ensures NewSlots(dir, [PAGES - 1]) == {ENTRIES - 1} && NewSlots(dir, [PAGES - 1, 0]) == {0, ENTRIES - 1}
  {
    var two := [PAGES - 1, 0];
    SlotsOfOne(dir, PAGES - 1);
    forall i: nat
      ensures UsesSlot(two, i) <==> i == 0 || i == ENTRIES - 1
    {
      assert 0 in two && PAGES - 1 in two;
    }
  }

  lemma SlotsOfOne(dir: Directory, p: nat)
    requires p / ENTRIES < |dir| && dir[p / ENTRIES].None?
    ensures NewSlots(dir, [p]) == {p / ENTRIES}
  {
    assert p in [p];
  }

  /** With one free frame, creating a page at 1 MiB in an empty space faults; at 4 MiB it does not. */
  lemma FaultsInLeaf(s: Space, free: set<nat>)
    requires EmptySpace(s) && |free| == 1
    ensures CreateFaults(s, free, 0x100000, PAGE_SIZE) && !CreateFaults(s, free, 0x400000, PAGE_SIZE)
  {
    assert NewSlots(s.dir, []) == {};
  }

  lemma WholePages(len: nat)
    requires len % PAGE_SIZE == 0
    ensures len / PAGE_SIZE * PAGE_SIZE == len
  {
  }

  lemma OnePageAtLeast(len: nat)
    requires len > 0 && len % PAGE_SIZE == 0
    ensures len >= PAGE_SIZE
  {
  }

  lemma PagesBefore(n: nat, m: nat)
    requires n <= m
    ensures n * PAGE_SIZE <= m * PAGE_SIZE
  {
  }

  lemma MappedIff(s: Space, free: set<nat>, p: nat)
    requires SpaceInv(s, free)
    ensures p in Flat(s.dir) <==> HasPage(s.vmas, p)
  {
    if HasPage(s.vmas, p) {
      var v :| v in s.vmas && v.Page() == p;
      assert MapsTo(Flat(s.dir), v);
    }
  }

  lemma OnePageFaults(dir: Directory, free: set<nat>, f: nat, v: nat)
    requires WellFormed(dir) && v < PAGES && f in free
    ensures MapFaults(dir, free - {f}, v, 1) <==> PageFaults(dir, free, v)
  {
    assert free == free - {f} + {f};
  }

  // ----- the last page of the address space

  /** A page ends above its start, in 32 bits, unless it is the last page. */
  lemma EndOfPage(start: nat)
    requires start < SPACE && start % PAGE_SIZE == 0
    ensures start < Wrap(start + PAGE_SIZE) <==> start != TOP_PAGE
    ensures start != TOP_PAGE ==> Wrap(start + PAGE_SIZE) == start + PAGE_SIZE
  {
  }

  /** One of the n areas from position k on is the last page. */
  ghost predicate HasTop(vmas: seq<Vma>, k: nat, n: nat)
  {
    exists i | k <= i < k + n && i < |vmas| :: vmas[i].start == TOP_PAGE
  }

  lemma TopStep(vmas: seq<Vma>, k: nat, i: nat)
    requires k + i < |vmas|
    ensures HasTop(vmas, k, i + 1) <==> HasTop(vmas, k, i) || vmas[k + i].start == TOP_PAGE
  {
    if HasTop(vmas, k, i) {
      var j :| k <= j < k + i && vmas[j].start == TOP_PAGE;
      assert j < k + (i + 1);
    }
  }

  lemma TopWithin(vmas: seq<Vma>, k: nat, i: nat, n: nat)
    requires i <= n && HasTop(vmas, k, i)
    ensures HasTop(vmas, k, n)
  {
    var j :| k <= j < k + i && j < |vmas| && vmas[j].start == TOP_PAGE;
  }

  /** A run has the last page in it exactly if it reaches the end of the address space. */
  lemma RunTop(vmas: seq<Vma>, k: nat, addr: nat, n: nat)
    requires RunAt(vmas, k, addr, n) && addr < SPACE && addr % PAGE_SIZE == 0 && n * PAGE_SIZE < SPACE
    ensures HasTop(vmas, k, n) <==> n > 0 && addr + n * PAGE_SIZE >= SPACE
  {
    if n > 0 && addr + n * PAGE_SIZE >= SPACE {
      var j := PagesToEnd(addr, n);
      RunArea(vmas, k, addr, n, j);
    }
    if HasTop(vmas, k, n) {
      var i :| k <= i < k + n && i < |vmas| && vmas[i].start == TOP_PAGE;
      RunArea(vmas, k, addr, n, i - k);
      AtTheEnd(addr, i - k, n);
    }
  }

  lemma PagesToEnd(addr: nat, n: nat) returns (j: nat)
    requires addr < SPACE && addr % PAGE_SIZE == 0 && n > 0 && addr + n * PAGE_SIZE >= SPACE
    ensures j < n && Wrap(addr + j * PAGE_SIZE) == TOP_PAGE
  {
    j := (TOP_PAGE - addr) / PAGE_SIZE;
    assert addr + j * PAGE_SIZE == TOP_PAGE;
  }

  lemma AtTheEnd(addr: nat, j: nat, n: nat)
    requires j < n && Wrap(addr + j * PAGE_SIZE) == TOP_PAGE
    ensures addr + n * PAGE_SIZE >= SPACE
  {
    assert addr + j * PAGE_SIZE >= TOP_PAGE;
  }
}
