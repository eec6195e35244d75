/**
  Copying between a kernel buffer and user memory by walking the page table, one
  page at a time. All address arithmetic is 32-bit.
*/
module UserCopy {
  import opened Common
  import opened FramePool
  import opened PageTable
  import opened Space
  import opened Areas
  import opened AddressSpace
  import opened AreaOrder
  import opened UserBytes

  function AlignBelow(a: nat): nat { a - a % PAGE_SIZE }

  function PageEnd(a: nat): nat { Wrap(AlignAbove(a, PAGE_SIZE)) }

  function AlignNext(a: nat): nat { Wrap(AlignAbove(a + 1, PAGE_SIZE)) }

  lemma AlignNextIs(a: nat)
    ensures AlignNext(a) == Wrap(AlignBelow(a) + PAGE_SIZE)
  {
    PageAbove(a + 1);
    NextPage(a);
  }

  lemma NextPage(a: nat)
    ensures (a + 1 + PAGE_SIZE - 1) / PAGE_SIZE * PAGE_SIZE == AlignBelow(a) + PAGE_SIZE
  {
  }

  lemma PageEndIs(a: nat)
    ensures PageEnd(a) == Wrap((a + PAGE_SIZE - 1) / PAGE_SIZE * PAGE_SIZE)
  {
    PageAbove(a);
  }

  /** The length of the piece at `start`, as the loop computes it. */
  function Piece(start: nat, end: nat): nat { PieceTo(AlignNext(start), start, end) }

  function PieceTo(next: nat, start: nat, end: nat): nat
  {
    Wrap(SPACE + (if next < end then next else end) - start)
  }

  /** The number of bytes from `start` to the end of its page or of the range. */
  function PieceWanted(start: nat, end: nat): int
  {
    var next := AlignBelow(start) + PAGE_SIZE;
    (if next < end then next else end) - start
  }

  /** Places where the walk over [a, a + n) stops: its start and the page starts inside. */
  predicate IsStop(s: nat, a: nat, n: nat)
  {
    a <= s < a + n && (s == a || s % PAGE_SIZE == 0)
  }

  /** At every stop the loop goes on, with the right piece. */
  ghost predicate WalksRight(a: nat, n: nat)
  {
    forall s: nat | IsStop(s, a, n) :: RightAt(s, a, n)
  }

  predicate RightAt(s: nat, a: nat, n: nat)
  {
    s < Wrap(a + n) && Piece(s, Wrap(a + n)) == PieceWanted(s, a + n)
  }

  lemma PieceBelowTop(s: nat, end: nat)
    requires s < end <= TOP_PAGE
    ensures Piece(s, end) == PieceWanted(s, end) && 0 < Piece(s, end) <= end - s
    ensures s % PAGE_SIZE + Piece(s, end) <= PAGE_SIZE
    ensures AlignNext(s) == AlignBelow(s) + PAGE_SIZE
  {
    AlignNextIs(s);
    PieceLow(AlignNext(s), s, end);
  }

  lemma PieceLow(next: nat, s: nat, end: nat)
    requires s < end <= TOP_PAGE && next == Wrap(AlignBelow(s) + PAGE_SIZE)
    ensures next == AlignBelow(s) + PAGE_SIZE
    ensures PieceTo(next, s, end) == PieceWanted(s, end) && 0 < PieceTo(next, s, end) <= end - s
    ensures s % PAGE_SIZE + PieceTo(next, s, end) <= PAGE_SIZE
  {
  }

  lemma PieceInTop(s: nat, end: nat)
    requires TOP_PAGE <= s < end < SPACE
    ensures Piece(s, end) == SPACE - s && PieceWanted(s, end) == end - s
  {
    AlignNextIs(s);
    PieceHigh(AlignNext(s), s, end);
  }

  lemma PieceHigh(next: nat, s: nat, end: nat)
    requires TOP_PAGE <= s < end < SPACE && next == Wrap(AlignBelow(s) + PAGE_SIZE)
    ensures PieceTo(next, s, end) == SPACE - s && PieceWanted(s, end) == end - s
  {
  }

  lemma RightBelowTop(s: nat, a: nat, n: nat)
    requires a + n <= TOP_PAGE && IsStop(s, a, n)
    ensures RightAt(s, a, n)
  {
    EndExact(a, n);
    PieceBelowTop(s, a + n);
  }

  /** A range that reaches into the last page has a stop where the loop ends or takes a wrong piece. */
  lemma WrongStop(a: nat, n: nat) returns (s: nat)
    requires a < SPACE && 0 < n < SPACE && a + n > TOP_PAGE
    ensures IsStop(s, a, n) && !RightAt(s, a, n)
  {
    if a + n >= SPACE {
      s := a;
      EndsAtOnce(a, n);
    } else {
      s := if a < TOP_PAGE then TOP_PAGE else a;
      Overruns(s, a, n);
    }
  }

  lemma EndsAtOnce(a: nat, n: nat)
    requires a < SPACE && n < SPACE && Wraps(a, n)
    ensures !RightAt(a, a, n)
  {
    NoRounds(a, n);
  }

  lemma Overruns(s: nat, a: nat, n: nat)
    requires TOP_PAGE <= s < a + n < SPACE
    ensures !RightAt(s, a, n)
  {
    BelowEnd(a + n);
    PieceInTop(s, a + n);
  }

  lemma BelowEnd(end: nat)
    requires end < SPACE
    ensures Wrap(end) == end
  {
  }

  /** Where the loop stands after k rounds. */
  function StopAfter(s: nat, k: nat): nat
  {
    if k == 0 then s else AlignNext(StopAfter(s, k - 1))
  }

  /** Up to the last page the rounds go from page to page. */
  lemma {:induction false} StopIs(s: nat, k: nat)
    requires k > 0 && AlignBelow(s) + k * PAGE_SIZE <= SPACE
    ensures StopAfter(s, k) == Wrap(AlignBelow(s) + k * PAGE_SIZE)
  {
    AlignNextIs(StopAfter(s, k - 1));
    if k > 1 {
      StopIs(s, k - 1);
      PageMultiple(s, k - 1);
    }
  }

  lemma PageMultiple(s: nat, k: nat)
    requires AlignBelow(s) + k * PAGE_SIZE < SPACE
    ensures var t := AlignBelow(s) + k * PAGE_SIZE; Wrap(t) == t && AlignBelow(t) == t
  {
  }

  lemma {:induction false} StopsCompose(s: nat, j: nat, k: nat)
    ensures StopAfter(s, j + k) == StopAfter(StopAfter(s, j), k)
  {
    if k > 0 { StopsCompose(s, j, k - 1); }
  }

  /** A loop whose end is inside the last page goes on after every round. */
  lemma {:induction false} NeverDone(s: nat, end: nat, k: nat)
    requires TOP_PAGE < end < SPACE && s < end
    ensures StopAfter(s, k) < end
  {
    if k > 0 {
      NeverDone(s, end, k - 1);
      AlignNextIs(StopAfter(s, k - 1));
      GoesRound(StopAfter(s, k - 1));
    }
  }

  lemma GoesRound(s: nat)
    requires s < SPACE
    ensures Wrap(AlignBelow(s) + PAGE_SIZE) <= TOP_PAGE
    ensures s >= TOP_PAGE ==> Wrap(AlignBelow(s) + PAGE_SIZE) == 0
  {
  }

  /** After the last page the loop starts over at user address 0. */
  lemma StartsOver(s: nat)
    requires TOP_PAGE <= s < SPACE
    ensures AlignNext(s) == 0
  {
    AlignNextIs(s);
    GoesRound(s);
  }

  /** Such a loop comes to every page of the address space. */
  lemma VisitsAll(s: nat, p: nat) returns (k: nat)
    requires s < SPACE && p < SPACE && p % PAGE_SIZE == 0
    ensures StopAfter(s, k) == p
  {
    var round := RoundsToZero(s);
    k := round + p / PAGE_SIZE;
    FromZero(p);
    StopsCompose(s, round, p / PAGE_SIZE);
  }

  lemma RoundsToZero(s: nat) returns (k: nat)
    requires s < SPACE
    ensures StopAfter(s, k) == 0
  {
    k := PagesLeft(s);
    StopIs(s, k);
  }

  lemma PagesLeft(s: nat) returns (k: nat)
    requires s < SPACE
    ensures k > 0 && AlignBelow(s) + k * PAGE_SIZE == SPACE
  {
    k := SPACE / PAGE_SIZE - s / PAGE_SIZE;
  }

  lemma FromZero(p: nat)
    requires p < SPACE && p % PAGE_SIZE == 0
    ensures StopAfter(0, p / PAGE_SIZE) == p
  {
    WholePages(p);
    if p > 0 { StopIs(0, p / PAGE_SIZE); }
  }

  /** The loop comes to its end exactly if it has no rounds, or the end is not inside the last page. */
  lemma WalkEndsIff(a: nat, end: nat)
    requires a < SPACE && end < SPACE
    ensures (exists k: nat :: StopAfter(a, k) >= end) <==> end <= a || end <= TOP_PAGE
  {
    if a < end && end > TOP_PAGE {
      forall k: nat
        ensures StopAfter(a, k) < end
      {
        NeverDone(a, end, k);
      }
    } else if end <= a {
      assert StopAfter(a, 0) >= end;
    } else {
      var k := VisitsAll(a, TOP_PAGE);
    }
  }

  /** The walk does what it should exactly when the range stays out of the last page. */
  lemma WalksRightIff(a: nat, n: nat)
    requires a < SPACE && n < SPACE
    ensures WalksRight(a, n) <==> InReach(a, n)
  {
    if InReach(a, n) {
      forall s: nat | IsStop(s, a, n)
        ensures RightAt(s, a, n)
      {
        RightBelowTop(s, a, n);
      }
    } else {
      var s := WrongStop(a, n);
    }
  }

  /** Eight bytes at the very end of the address space: the loop takes a longer piece. */
  lemma WalkOverruns()
    ensures Piece(SPACE - 16, SPACE - 8) == 16 && !WalksRight(SPACE - 16, 8)
  {
    PieceInTop(SPACE - 16, SPACE - 8);
    WalksRightIff(SPACE - 16, 8);
  }

  /** The number of bytes from one page boundary to another, as the code subtracts them. */
  function Between(lo: nat, hi: nat): nat { Wrap(SPACE + hi - lo) }

  /** The number of pages of PAGE_SIZE bytes that n bytes reach into, rounded up. */
  function Ceiling(n: nat): nat { (n + PAGE_SIZE - 1) / PAGE_SIZE }

  /** How many pages the range touches, modulo the number of pages there are. */
  function PageCount(a: nat, n: nat): nat { (Ceiling(a + n) - a / PAGE_SIZE) % PAGES }

  lemma WrapPages(k: nat)
    ensures Wrap(k * PAGE_SIZE) == k % PAGES * PAGE_SIZE
  {
  }

  lemma CeilingWraps(x: nat)
    ensures Ceiling(Wrap(x)) % PAGES == Ceiling(x) % PAGES
  {
    var m := x / SPACE;
    assert x == PAGE_SIZE * (PAGES * m) + Wrap(x);
    Quotient(PAGE_SIZE, PAGES * m, Wrap(x) + PAGE_SIZE - 1);
  }

  lemma CountBetween(l: nat, hi: nat, c: nat)
    requires l < PAGES && hi == Wrap(c * PAGE_SIZE)
    ensures Between(l * PAGE_SIZE, hi) == (PAGES + c % PAGES - l) % PAGES * PAGE_SIZE
  {
    WrapPages(c);
    WrapPages(PAGES + c % PAGES - l);
  }

  lemma ModDifference(l: nat, c: nat, d: nat)
    requires l < PAGES && c % PAGES == d % PAGES
    ensures (PAGES + c % PAGES - l) % PAGES == (d - l) % PAGES
  {
  }

  lemma BelowIs(a: nat)
    ensures AlignBelow(a) == a / PAGE_SIZE * PAGE_SIZE && (a < SPACE ==> a / PAGE_SIZE < PAGES)
  {
  }

  lemma Quotients(k: nat)
    ensures k * PAGE_SIZE / PAGE_SIZE == k && k * PAGE_SIZE % PAGE_SIZE == 0
  {
  }

  /** The code asks for as many pages as the range touches. */
  lemma AsksFor(a: nat, n: nat)
    requires a < SPACE
    ensures Between(AlignBelow(a), PageEnd(Wrap(a + n))) == PageCount(a, n) * PAGE_SIZE
  {
    var l, c := a / PAGE_SIZE, Ceiling(Wrap(a + n));
    PageEndIs(Wrap(a + n));
    BelowIs(a);
    CountBetween(l, PageEnd(Wrap(a + n)), c);
    CeilingWraps(a + n);
    ModDifference(l, c, Ceiling(a + n));
  }

  lemma PageCountLow(a: nat, n: nat)
    requires a < SPACE && InReach(a, n)
    ensures PageCount(a, n) == Ceiling(a + n) - a / PAGE_SIZE
  {
    CeilingLow(a, n);
  }

  lemma CeilingLow(a: nat, n: nat)
    requires a < SPACE && InReach(a, n)
    ensures 0 <= Ceiling(a + n) - a / PAGE_SIZE < PAGES
  {
  }

  /** The pages asked for are exactly the pages that the bytes of the range lie in. */
  lemma PagesAsked(a: nat, n: nat, p: nat)
    requires a < SPACE && 0 < n && a + n <= TOP_PAGE
    ensures a / PAGE_SIZE <= p < a / PAGE_SIZE + PageCount(a, n) <==>
              exists u: nat :: InChunk(u, a, n) && u / PAGE_SIZE == p
  {
    PageCountLow(a, n);
    if a / PAGE_SIZE <= p < Ceiling(a + n) {
      var u := ByteInPage(a, n, p);
      assert InChunk(u, a, n);
    }
    forall u: nat | InChunk(u, a, n)
      ensures a / PAGE_SIZE <= u / PAGE_SIZE < Ceiling(a + n)
    {
      PageOfByte(a, n, u);
    }
  }

  lemma ByteInPage(a: nat, n: nat, p: nat) returns (u: nat)
    requires 0 < n && a / PAGE_SIZE <= p < Ceiling(a + n)
    ensures a <= u < a + n && u / PAGE_SIZE == p
  {
    u := if p == a / PAGE_SIZE then a else p * PAGE_SIZE;
  }

  lemma PageOfByte(a: nat, n: nat, u: nat)
    requires a <= u < a + n
    ensures a / PAGE_SIZE <= u / PAGE_SIZE < Ceiling(a + n)
  {
  }

  lemma PageCountEnough(a: nat, n: nat)
    requires a < SPACE && 0 < n && a + n <= TOP_PAGE
    ensures AlignBelow(a) + PageCount(a, n) * PAGE_SIZE >= a + n
  {
    PageCountLow(a, n);
    CeilingCovers(a, n);
  }

  lemma CeilingCovers(a: nat, n: nat)
    ensures a / PAGE_SIZE <= Ceiling(a + n) && AlignBelow(a) + (Ceiling(a + n) - a / PAGE_SIZE) * PAGE_SIZE >= a + n
  {
  }

  /** The range is empty or ends at or below the last page. */
  predicate InReach(a: nat, n: nat)
  {
    n == 0 || a + n <= TOP_PAGE
  }

  /** The range goes past the end of the address space. */
  predicate Wraps(a: nat, n: nat)
  {
    n > 0 && a + n >= SPACE
  }

  /** Then its 32-bit end is not above its start, and the loop has no rounds. */
  lemma NoRounds(a: nat, n: nat)
    requires a < SPACE && n < SPACE && Wraps(a, n)
    ensures Wrap(a + n) <= a
  {
  }

  /** All pages of a run are mapped. */
  lemma RunMapped(s: Space, free: set<nat>, i: nat, a: nat, n: nat, u: nat)
    requires SpaceInv(s, free) && a % PAGE_SIZE == 0 && RunAt(s.vmas, i, a, n)
    requires a <= u < SPACE && u < a + n * PAGE_SIZE
    ensures u / PAGE_SIZE in Flat(s.dir)
  {
    var j := (u - a) / PAGE_SIZE;
    PageOfOffset(a, u);
    RunArea(s.vmas, i, a, n, j);
    AreaMapped(s, free, s.vmas[i + j], u / PAGE_SIZE);
  }

  lemma AreaMapped(s: Space, free: set<nat>, v: Vma, p: nat)
    requires SpaceInv(s, free) && v in s.vmas && v.Page() == p
    ensures p in Flat(s.dir)
  {
  }

  lemma PageOfOffset(a: nat, u: nat)
    requires a % PAGE_SIZE == 0 && a <= u < SPACE
    ensures Wrap(a + (u - a) / PAGE_SIZE * PAGE_SIZE) / PAGE_SIZE == u / PAGE_SIZE
  {
  }

  lemma TranslateMapped(dir: Directory, u: nat)
    requires WellFormed(dir) && u < SPACE && u / PAGE_SIZE in Flat(dir)
    requires IsFrame(PteAddr(Flat(dir)[u / PAGE_SIZE]))
    ensures Translate(dir, u).Some?
    ensures var pa, f := Translate(dir, u).value, PteAddr(Flat(dir)[u / PAGE_SIZE]);
            pa - pa % PAGE_SIZE == f && pa % PAGE_SIZE == u % PAGE_SIZE
  {
  }

  /** After k rounds the loop stands at a page that has no leaf, which ends it with EACCES. */
  ghost predicate MissesLeaf(dir: Directory, a: nat, k: nat)
    requires WellFormed(dir)
  {
    StopAfter(a, k) < SPACE && Translate(dir, StopAfter(a, k)).None?
  }

  /** A loop whose end is inside the last page ends at all, and then with EACCES, exactly if some leaf is absent. */
  lemma EndsIffLeafMissing(dir: Directory, a: nat, end: nat)
    requires WellFormed(dir) && TOP_PAGE < end < SPACE && a < end
    ensures (exists k: nat :: MissesLeaf(dir, a, k)) <==> SomeSlotEmpty(dir)
  {
    if SomeSlotEmpty(dir) {
      var i :| 0 <= i < ENTRIES && dir[i].None?;
      LeafStart(i);
      var k := VisitsAll(a, i * ENTRIES * PAGE_SIZE);
      assert MissesLeaf(dir, a, k);
    }
  }

  lemma LeafStart(i: nat)
    requires i < ENTRIES
    ensures var p := i * ENTRIES * PAGE_SIZE; p < SPACE && p % PAGE_SIZE == 0 && p / PAGE_SIZE / ENTRIES == i
  {
  }

  /** Whether the pages of the range are areas that follow each other in the list. */
  ghost predicate Covered(mm: Mm, a: nat, n: nat)
    reads mm
  {
    HasRun(mm.vmas, AlignBelow(a), PageCount(a, n))
  }

  lemma CoveredMapped(s: Space, free: set<nat>, a: nat, n: nat)
    requires SpaceInv(s, free) && HasRun(s.vmas, AlignBelow(a), PageCount(a, n))
    requires a < SPACE && InReach(a, n)
    ensures AllMapped(Flat(s.dir), a, n)
  {
    if n > 0 {
      PageCountEnough(a, n);
      ChunkMapped(s, free, FirstAt(s.vmas, AlignBelow(a), 0), AlignBelow(a), PageCount(a, n), a, n);
    }
  }

  lemma ChunkMapped(s: Space, free: set<nat>, i: nat, lo: nat, count: nat, a: nat, n: nat)
    requires SpaceInv(s, free) && lo % PAGE_SIZE == 0 && RunAt(s.vmas, i, lo, count)
    requires lo <= a && a + n <= lo + count * PAGE_SIZE && a + n <= SPACE
    ensures AllMapped(Flat(s.dir), a, n)
  {
    forall u: nat | InChunk(u, a, n)
      ensures u / PAGE_SIZE in Flat(s.dir)
    {
      RunMapped(s, free, i, lo, count, u);
    }
  }

  /** All of the pages have areas. */
  ghost predicate HasPages(vmas: seq<Vma>, p: nat, count: nat)
  {
    forall i: nat | p <= i < p + count :: HasPage(vmas, i)
  }

  /** On a sorted list, areas for consecutive pages follow each other. */
  lemma {:induction false} SortedRun(vmas: seq<Vma>, i: nat, p: nat, count: nat)
    requires VmasOk(vmas) && Increasing(vmas) && p + count <= PAGES && HasPages(vmas, p, count)
    requires i < |vmas| && vmas[i].start == p * PAGE_SIZE
    ensures RunAt(vmas, i, p * PAGE_SIZE, count)
    decreases count
  {
    if count > 0 {
      var j := count - 1;
      SortedRun(vmas, i, p, j);
      assert HasPage(vmas, p + j);
      var v :| v in vmas && v.Page() == p + j;
      var m :| 0 <= m < |vmas| && vmas[m] == v;
      assert VmaOk(v);
      StartOfPage(v.start, p, j);
      if j > 0 { NextInOrder(vmas, i, p, j, m); } else { SameStart(vmas, i, m); }
      BelowTop(p, j);
    }
  }

  lemma SameStart(vmas: seq<Vma>, i: nat, m: nat)
    requires VmasOk(vmas) && i < |vmas| && m < |vmas| && vmas[i].start == vmas[m].start
    ensures i == m
  {
  }

  lemma StartOfPage(start: nat, p: nat, j: nat)
    requires start % PAGE_SIZE == 0 && start / PAGE_SIZE == p + j
    ensures start == p * PAGE_SIZE + j * PAGE_SIZE
  {
  }

  lemma BelowTop(p: nat, j: nat)
    requires p + j < PAGES
    ensures Wrap(p * PAGE_SIZE + j * PAGE_SIZE) == p * PAGE_SIZE + j * PAGE_SIZE
  {
  }

  /** The area for page j stands right after the one for the page before it. */
  lemma NextInOrder(vmas: seq<Vma>, i: nat, p: nat, j: nat, m: nat)
    requires VmasOk(vmas) && Increasing(vmas) && 0 < j && p + j < PAGES
    requires RunAt(vmas, i, p * PAGE_SIZE, j) && m < |vmas| && vmas[m].start == p * PAGE_SIZE + j * PAGE_SIZE
    ensures m == i + j
  {
    RunArea(vmas, i, p * PAGE_SIZE, j, j - 1);
    BelowTop(p, j - 1);
    Adjacent(vmas, i + (j - 1), m);
  }

  lemma Adjacent(vmas: seq<Vma>, k: nat, m: nat)
    requires VmasOk(vmas) && Increasing(vmas) && k < |vmas| && m < |vmas| && vmas[m].start == vmas[k].start + PAGE_SIZE
    ensures m == k + 1
  {
    assert k < m;
    assert VmaOk(vmas[k]) && VmaOk(vmas[k + 1]);
    PageGap(vmas[k].start, vmas[k + 1].start);
  }

  /** The area of a page is found at its address. */
  lemma FirstOfPage(s: Space, free: set<nat>, p: nat)
    requires SpaceInv(s, free)
    ensures p in Flat(s.dir) <==> FirstAt(s.vmas, p * PAGE_SIZE, 0) < |s.vmas|
  {
    MappedIff(s, free, p);
    var i := FirstAt(s.vmas, p * PAGE_SIZE, 0);
    if i < |s.vmas| {
      assert s.vmas[i] in s.vmas;
      Quotients(p);
    } else {
      forall v | v in s.vmas
        ensures v.Page() != p
      {
        assert VmaOk(v);
        WholePages(v.start);
      }
    }
  }

  /** On a sorted list a run of pages is found if and only if all of them have areas. */
  lemma FoundIffThere(s: Space, free: set<nat>, p: nat, count: nat)
    requires SpaceInv(s, free) && Sorted(s.vmas) && 0 < count && p + count <= PAGES && HasPages(s.vmas, p, count)
    ensures HasRun(s.vmas, p * PAGE_SIZE, count)
  {
    assert HasPage(s.vmas, p);
    MappedIff(s, free, p);
    FirstOfPage(s, free, p);
    SortedIffIncreasing(s.vmas);
    SortedRun(s.vmas, FirstAt(s.vmas, p * PAGE_SIZE, 0), p, count);
  }

  lemma MappedPages(s: Space, free: set<nat>, a: nat, n: nat, count: nat)
    requires SpaceInv(s, free) && a < SPACE && 0 < n && a + n <= TOP_PAGE && count == PageCount(a, n)
    requires AllMapped(Flat(s.dir), a, n)
    ensures HasPages(s.vmas, a / PAGE_SIZE, count)
  {
    forall p: nat | a / PAGE_SIZE <= p < a / PAGE_SIZE + count
      ensures HasPage(s.vmas, p)
    {
      PagesAsked(a, n, p);
      MappedIff(s, free, p);
    }
  }

  /** On a sorted list the pages of a range are found if and only if every byte of it is mapped. */
  lemma CoveredIff(s: Space, free: set<nat>, a: nat, n: nat, count: nat)
    requires SpaceInv(s, free) && Sorted(s.vmas) && a < SPACE && 0 < n && a + n <= TOP_PAGE && count == PageCount(a, n)
    ensures HasRun(s.vmas, AlignBelow(a), count) <==> AllMapped(Flat(s.dir), a, n)
  {
    if AllMapped(Flat(s.dir), a, n) {
      MappedPages(s, free, a, n, count);
      BelowIs(a);
      PageCountLow(a, n);
      CountFits(a, n);
      FoundIffThere(s, free, a / PAGE_SIZE, count);
    } else if HasRun(s.vmas, AlignBelow(a), count) {
      CoveredMapped(s, free, a, n);
    }
  }

  lemma CountFits(a: nat, n: nat)
    requires a + n <= TOP_PAGE && 0 < n
    ensures a / PAGE_SIZE < Ceiling(a + n) <= PAGES
  {
  }

  /** For an empty range one page has to be mapped, that of its start. */
  lemma EmptyCovered(s: Space, free: set<nat>, a: nat, count: nat)
    requires SpaceInv(s, free) && a < SPACE && count == PageCount(a, 0)
    ensures HasRun(s.vmas, AlignBelow(a), count) <==> a / PAGE_SIZE in Flat(s.dir)
  {
    PageCountLow(a, 0);
    OnePageAtMost(a);
    BelowIs(a);
    FirstOfPage(s, free, a / PAGE_SIZE);
    SmallRun(s.vmas, a / PAGE_SIZE * PAGE_SIZE, count);
  }

  lemma SmallRun(vmas: seq<Vma>, lo: nat, count: nat)
    requires count <= 1 && lo < SPACE
    ensures HasRun(vmas, lo, count) <==> FirstAt(vmas, lo, 0) < |vmas|
  {
  }

  lemma OnePageAtMost(a: nat)
    ensures 0 <= Ceiling(a) - a / PAGE_SIZE <= 1
  {
  }

  /** When a copy succeeds: on a sorted list, exactly if all of the range is mapped. */
  ghost predicate FoundIff(ok: bool, s: Space, a: nat, n: nat)
    requires WellFormed(s.dir)
  {
    && (n == 0 ==> (ok <==> a / PAGE_SIZE in Flat(s.dir)))
    && (0 < n && InReach(a, n) && ok ==> AllMapped(Flat(s.dir), a, n))
    && (0 < n && InReach(a, n) && Sorted(s.vmas) && AllMapped(Flat(s.dir), a, n) ==> ok)
  }

  lemma CoveredMeans(s: Space, free: set<nat>, a: nat, n: nat)
    requires SpaceInv(s, free) && a < SPACE
    ensures FoundIff(HasRun(s.vmas, AlignBelow(a), PageCount(a, n)), s, a, n)
  {
    var count := PageCount(a, n);
    if n == 0 {
      EmptyCovered(s, free, a, count);
    } else if InReach(a, n) {
      if HasRun(s.vmas, AlignBelow(a), count) { CoveredMapped(s, free, a, n); }
      if Sorted(s.vmas) { CoveredIff(s, free, a, n, count); }
    }
  }

  lemma EndExact(a: nat, n: nat)
    requires a < SPACE && InReach(a, n)
    ensures Wrap(a + n) == a + n
  {
  }

  /** What a copy can rely on, and what it means that the pages were found. */
  lemma CopyFacts(s: Space, free: set<nat>, a: nat, n: nat)
    requires SpaceInv(s, free) && a < SPACE && n < SPACE && (InReach(a, n) || Wraps(a, n))
    ensures OneToOne(Flat(s.dir)) && Backing(Flat(s.dir)) == DataFrames(s.vmas)
    ensures if InReach(a, n) then Wrap(a + n) == a + n else Wrap(a + n) <= a
    ensures var found := HasRun(s.vmas, AlignBelow(a), PageCount(a, n));
            FoundIff(found, s, a, n) && (found && InReach(a, n) ==> AllMapped(Flat(s.dir), a, n))
  {
    CoveredMeans(s, free, a, n);
    SpaceOneToOne(s, free);
    BackingIsData(s, free);
    if InReach(a, n) { EndExact(a, n); } else { NoRounds(a, n); }
  }

  /** The loop's address arithmetic: the next piece and the next stop. */
  method NextPiece(start: nat, end: nat) returns (l: nat, next: nat)
    requires start < end <= TOP_PAGE
    ensures l == PieceWanted(start, end) && 0 < l <= end - start && start % PAGE_SIZE + l <= PAGE_SIZE
    ensures if l < end - start then next == start + l else next >= end
  {
    PieceBelowTop(start, end);
    l, next := Piece(start, end), AlignNext(start);
  }

  // ----- to user memory

  /** One round: find the page in the table and copy one piece to it. */
  method WritePiece(pt: Table, pool: Pool, start: nat, bytes: seq<Byte>) returns (rc: int)
    requires WellFormed(pt.dir) && OneToOne(Flat(pt.dir)) && pool.HasMemory()
    requires start < SPACE && start / PAGE_SIZE in Flat(pt.dir) && start % PAGE_SIZE + |bytes| <= PAGE_SIZE
    modifies pool`mem
    ensures pool.HasMemory() && rc == 0
    ensures Wrote(Flat(pt.dir), old(pool.mem), pool.mem, start, bytes)
    ensures SameOutside(old(pool.mem), pool.mem, Backing(Flat(pt.dir)))
  {
    TranslateMapped(pt.dir, start);
    ChunkWritten(Flat(pt.dir), pool.mem, start, bytes);
    var pa := Translate(pt.dir, start);
    if pa.None? { return -EACCES; }
    pool.Write(pa.value, bytes);
    rc := 0;
  }

  method WritePieces(pt: Table, pool: Pool, uvaddr: nat, end: nat, data: seq<Byte>) returns (rc: int)
    requires WellFormed(pt.dir) && OneToOne(Flat(pt.dir)) && pool.HasMemory()
    requires if InReach(uvaddr, |data|) then end == uvaddr + |data| && AllMapped(Flat(pt.dir), uvaddr, |data|)
             else end <= uvaddr
    modifies pool`mem
    ensures pool.HasMemory() && rc == 0
    ensures InReach(uvaddr, |data|) ==> Wrote(Flat(pt.dir), old(pool.mem), pool.mem, uvaddr, data)
    ensures !InReach(uvaddr, |data|) ==> pool.mem == old(pool.mem)
    ensures SameOutside(old(pool.mem), pool.mem, Backing(Flat(pt.dir)))
  {
    var start, k := uvaddr, 0;
    while start < end
      invariant 0 <= k <= |data| && pool.HasMemory()
      invariant if InReach(uvaddr, |data|) && k < |data| then start == uvaddr + k else start >= end
      invariant !InReach(uvaddr, |data|) ==> k == 0 && pool.mem == old(pool.mem)
      invariant Wrote(Flat(pt.dir), old(pool.mem), pool.mem, uvaddr, data[..k])
      invariant SameOutside(old(pool.mem), pool.mem, Backing(Flat(pt.dir)))
    {
      ghost var mid := pool.mem;
      assert InChunk(start, uvaddr, |data|);
      var l, next := NextPiece(start, end);
      rc := WritePiece(pt, pool, start, data[k..k + l]);
      if rc < 0 { return; }
      WroteSlice(Flat(pt.dir), old(pool.mem), mid, pool.mem, uvaddr, start, data, k, l);
      start, k := next, k + l;
    }
    assert InReach(uvaddr, |data|) ==> data[..k] == data;
    rc := 0;
  }

  /** Copy `data` to user memory at uvaddr. A range past the end of the address space gets nothing, and no error. */
  method CopyTo(mm: Mm, pool: Pool, uvaddr: nat, data: seq<Byte>) returns (rc: int)
    requires mm.Valid(pool) && pool.HasMemory() && uvaddr < SPACE && |data| < SPACE
    requires InReach(uvaddr, |data|) || Wraps(uvaddr, |data|)
    modifies pool`mem
    ensures mm.Valid(pool) && pool.HasMemory() && rc == if Covered(mm, uvaddr, |data|) then 0 else -EFAULT
    ensures FoundIff(rc == 0, mm.View(), uvaddr, |data|)
    ensures rc < 0 || Wraps(uvaddr, |data|) ==> pool.mem == old(pool.mem)
    ensures rc == 0 && InReach(uvaddr, |data|) ==> Wrote(Flat(mm.pt.dir), old(pool.mem), pool.mem, uvaddr, data)
    ensures SameOutside(old(pool.mem), pool.mem, DataFrames(mm.vmas))
  {
    ghost var s := mm.View();
    CopyFacts(s, pool.free, uvaddr, |data|);
    var ok := FindPages(mm, uvaddr, |data|);
    if !ok { return -EFAULT; }
    rc := WriteFound(mm, pool, uvaddr, data, s);
  }

  /** The loop, once the pages have been found; it does not fail. */
  method WriteFound(mm: Mm, pool: Pool, uvaddr: nat, data: seq<Byte>, ghost s: Space) returns (rc: int)
    requires mm.Valid(pool) && pool.HasMemory() && mm.View() == s
    requires OneToOne(Flat(s.dir)) && Backing(Flat(s.dir)) == DataFrames(s.vmas)
    requires InReach(uvaddr, |data|) ==> Wrap(uvaddr + |data|) == uvaddr + |data|
    requires if InReach(uvaddr, |data|) then AllMapped(Flat(s.dir), uvaddr, |data|) else Wrap(uvaddr + |data|) <= uvaddr
    modifies pool`mem
    ensures rc == 0 && mm.Valid(pool) && pool.HasMemory() && mm.View() == s
    ensures InReach(uvaddr, |data|) ==> Wrote(Flat(s.dir), old(pool.mem), pool.mem, uvaddr, data)
    ensures !InReach(uvaddr, |data|) ==> pool.mem == old(pool.mem)
    ensures SameOutside(old(pool.mem), pool.mem, DataFrames(s.vmas))
  {
    rc := WritePieces(mm.pt, pool, uvaddr, Wrap(uvaddr + |data|), data);
  }

  method FindPages(mm: Mm, uvaddr: nat, len: nat) returns (ok: bool)
    requires uvaddr < SPACE
    ensures ok <==> Covered(mm, uvaddr, len)
  {
    AsksFor(uvaddr, len);
    Quotients(PageCount(uvaddr, len));
    BelowIs(uvaddr);
    var startPage, endPage := AlignBelow(uvaddr), PageEnd(Wrap(uvaddr + len));
    var r := mm.FindContinuous(startPage, Between(startPage, endPage));
    ok := r.Some?;
  }

  // ----- from user memory

  method ReadPiece(pt: Table, pool: Pool, start: nat, l: nat) returns (rc: int, bytes: seq<Byte>)
    requires WellFormed(pt.dir) && OneToOne(Flat(pt.dir)) && pool.HasMemory()
    requires start < SPACE && start / PAGE_SIZE in Flat(pt.dir) && start % PAGE_SIZE + l <= PAGE_SIZE
    ensures rc == 0 && |bytes| == l && Sees(Flat(pt.dir), pool.mem, start, bytes)
  {
    TranslateMapped(pt.dir, start);
    ChunkRead(Flat(pt.dir), pool.mem, start, l);
    var pa := Translate(pt.dir, start);
    if pa.None? { return -EACCES, []; }
    bytes := pool.Read(pa.value, l);
    rc := 0;
  }

  method ReadPieces(pt: Table, pool: Pool, uvaddr: nat, end: nat, len: nat) returns (rc: int, data: seq<Byte>)
    requires WellFormed(pt.dir) && OneToOne(Flat(pt.dir)) && pool.HasMemory()
    requires if InReach(uvaddr, len) then end == uvaddr + len && AllMapped(Flat(pt.dir), uvaddr, len) else end <= uvaddr
    ensures rc == 0 && |data| == (if InReach(uvaddr, len) then len else 0)
    ensures Sees(Flat(pt.dir), pool.mem, uvaddr, data)
  {
    var start := uvaddr;
    data := [];
    while start < end
      invariant |data| <= len && Sees(Flat(pt.dir), pool.mem, uvaddr, data)
      invariant if InReach(uvaddr, len) && |data| < len then start == uvaddr + |data| else start >= end
      invariant !InReach(uvaddr, len) ==> data == []
    {
      assert InChunk(start, uvaddr, len);
      var l, next := NextPiece(start, end);
      var bytes;
      rc, bytes := ReadPiece(pt, pool, start, l);
      if rc < 0 { return; }
      SeesMore(Flat(pt.dir), pool.mem, uvaddr, data, bytes);
      start, data := next, data + bytes;
    }
    rc := 0;
  }

  /** Copy len bytes of user memory at uvaddr; `data` is the part of the buffer that was written. */
  method CopyFrom(mm: Mm, pool: Pool, uvaddr: nat, len: nat) returns (rc: int, data: seq<Byte>)
    requires mm.Valid(pool) && pool.HasMemory() && uvaddr < SPACE && len < SPACE
    requires InReach(uvaddr, len) || Wraps(uvaddr, len)
    ensures rc == if Covered(mm, uvaddr, len) then 0 else -EFAULT
    ensures FoundIff(rc == 0, mm.View(), uvaddr, len)
    ensures |data| == if rc == 0 && InReach(uvaddr, len) then len else 0
    ensures Sees(Flat(mm.pt.dir), pool.mem, uvaddr, data)
  {
    CopyFacts(mm.View(), pool.free, uvaddr, len);
    var ok := FindPages(mm, uvaddr, len);
    if !ok { return -EFAULT, []; }
    rc, data := ReadPieces(mm.pt, pool, uvaddr, Wrap(uvaddr + len), len);
  }

  /** What was copied to user memory comes back exactly if the range does not go past the end of the address space. */
  method CopyToThenFrom(mm: Mm, pool: Pool, uvaddr: nat, data: seq<Byte>) returns (to: int, from: int, back: seq<Byte>)
    requires mm.Valid(pool) && pool.HasMemory() && uvaddr < SPACE && |data| < SPACE
    requires InReach(uvaddr, |data|) || Wraps(uvaddr, |data|)
    modifies pool`mem
    ensures to == from && (to == 0 ==> (back == data <==> InReach(uvaddr, |data|)))
  {
    ghost var flat, mem0 := Flat(mm.pt.dir), pool.mem;
    to := CopyTo(mm, pool, uvaddr, data);
    assert to == 0 && InReach(uvaddr, |data|) ==> Sees(flat, pool.mem, uvaddr, data) by {
      if to == 0 && InReach(uvaddr, |data|) { WroteSees(flat, mem0, pool.mem, uvaddr, data); }
    }
    from, back := CopyFrom(mm, pool, uvaddr, |data|);
    if to == 0 && InReach(uvaddr, |data|) { SeenOnce(flat, pool.mem, uvaddr, data, back); }
  }
}
