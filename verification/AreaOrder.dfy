/**
  The order of the area list. Creating areas keeps the list sorted and disjoint
  except when the new range reaches the top of the 32-bit address space, where the
  end address that the search compares with has wrapped to a small number.
*/
module AreaOrder {
  import opened Common
  import opened FramePool
  import opened PageTable
  import opened Space
  import opened Areas
  import opened AddressSpace

  /** Every area ends before the next one starts. */
  ghost predicate Sorted(vmas: seq<Vma>)
  {
    forall i, j | 0 <= i < j < |vmas| :: vmas[i].start + vmas[i].size <= vmas[j].start
  }

  ghost predicate Increasing(vmas: seq<Vma>)
  {
    forall i, j | 0 <= i < j < |vmas| :: vmas[i].start < vmas[j].start
  }

  lemma PageGap(a: nat, b: nat)
    requires a % PAGE_SIZE == 0 && b % PAGE_SIZE == 0
    ensures a < b <==> a + PAGE_SIZE <= b
  {
  }

  lemma SortedIffIncreasing(vmas: seq<Vma>)
    requires VmasOk(vmas)
    ensures Sorted(vmas) <==> Increasing(vmas)
  {
    forall i, j | 0 <= i < j < |vmas|
      ensures vmas[i].start < vmas[j].start <==> vmas[i].start + vmas[i].size <= vmas[j].start
    {
      assert VmaOk(vmas[i]) && VmaOk(vmas[j]);
      PageGap(vmas[i].start, vmas[j].start);
    }
  }

  /** The range ends below the top, or exactly there in an empty space. */
  ghost predicate FitsBelowTop(vmas: seq<Vma>, addr: nat, len: nat)
  {
    addr + len < SPACE || (addr + len == SPACE && vmas == [])
  }

  /** A successful creation keeps the list in order exactly when its range stays below the top. */
  lemma CreateSortedIff(s: Space, t: Space, addr: nat, len: nat, flags: nat)
    requires VmasOk(s.vmas) && Sorted(s.vmas) && VmasOk(t.vmas)
    requires len > 0 && addr < SPACE && addr % PAGE_SIZE == 0 && len % PAGE_SIZE == 0
    requires CreatedAtPlace(s, t, addr, len, flags)
    ensures Sorted(t.vmas) <==> FitsBelowTop(s.vmas, addr, len)
  {
    SortedIffIncreasing(s.vmas);
    SortedIffIncreasing(t.vmas);
    var k, n := PlaceFor(s.vmas, addr, len).value, len / PAGE_SIZE;
    if addr + len > SPACE {
      WrappingRun(t.vmas, k, addr, n);
    } else if addr + len == SPACE {
      TopRun(s, t, addr, len, flags);
    } else {
      LowRun(s, t, addr, len, flags);
    }
  }

  lemma LowRun(s: Space, t: Space, addr: nat, len: nat, flags: nat)
    requires VmasOk(s.vmas) && Increasing(s.vmas) && addr % PAGE_SIZE == 0 && len % PAGE_SIZE == 0
    requires addr + len < SPACE && CreatedAtPlace(s, t, addr, len, flags)
    ensures Increasing(t.vmas)
  {
    var k, n := PlaceFor(s.vmas, addr, len).value, len / PAGE_SIZE;
    StraightRun(t.vmas, k, addr, n);
    PlaceInOrder(s.vmas, addr, len);
    InsertedInOrder(s.vmas, t.vmas, k, n, addr, addr + n * PAGE_SIZE);
  }

  /** A run over the top contains a page at address 0 right after the last page. */
  lemma WrappingRun(vmas: seq<Vma>, k: nat, addr: nat, n: nat)
    requires RunAt(vmas, k, addr, n) && addr < SPACE && addr % PAGE_SIZE == 0 && addr + n * PAGE_SIZE > SPACE
    ensures !Increasing(vmas)
  {
    var j := PageAtZero(addr, n);
    RunArea(vmas, k, addr, n, j);
    RunArea(vmas, k, addr, n, 0);
    assert vmas[k].start == addr && vmas[k + j].start == 0;
    assert 0 <= k < k + j < |vmas|;
  }

  lemma PageAtZero(addr: nat, n: nat) returns (j: nat)
    requires addr < SPACE && addr % PAGE_SIZE == 0 && addr + n * PAGE_SIZE > SPACE
    ensures 0 < j < n && addr + j * PAGE_SIZE == SPACE
  {
    j := (SPACE - addr) / PAGE_SIZE;
    assert SPACE % PAGE_SIZE == 0;
  }

  /** Below the top a run's pages are where arithmetic without wrap-around puts them. */
  lemma StraightRun(vmas: seq<Vma>, k: nat, addr: nat, n: nat)
    requires RunAt(vmas, k, addr, n) && addr + n * PAGE_SIZE <= SPACE
    ensures forall j | k <= j < k + n :: vmas[j].start == addr + (j - k) * PAGE_SIZE
  {
  }

  lemma MultipleBelow(j: nat, n: nat)
    requires j < n
    ensures j * PAGE_SIZE + PAGE_SIZE <= n * PAGE_SIZE
  {
  }

  /** A range that ends exactly at the top goes to the front of the list. */
  lemma TopRun(s: Space, t: Space, addr: nat, len: nat, flags: nat)
    requires VmasOk(s.vmas) && VmasOk(t.vmas) && len > 0 && len % PAGE_SIZE == 0 && addr + len == SPACE
    requires CreatedAtPlace(s, t, addr, len, flags)
    ensures Increasing(t.vmas) <==> s.vmas == []
  {
    var n := len / PAGE_SIZE;
    assert PlaceFor(s.vmas, addr, len).value == 0;
    StraightRun(t.vmas, 0, addr, n);
    assert t.vmas == t.vmas[..n] + s.vmas;
    if s.vmas == [] {
      RunIncreasing(t.vmas, addr);
    } else {
      assert VmaOk(t.vmas[n]);
      NothingAfterTop(t.vmas, n);
    }
  }

  lemma RunIncreasing(vmas: seq<Vma>, addr: nat)
    requires forall j | 0 <= j < |vmas| :: vmas[j].start == addr + j * PAGE_SIZE
    ensures Increasing(vmas)
  {
    forall i, j | 0 <= i < j < |vmas|
      ensures vmas[i].start < vmas[j].start
    {
      MultipleBelow(i, j);
    }
  }

  lemma NothingAfterTop(vmas: seq<Vma>, n: nat)
    requires 0 < n < |vmas| && vmas[n - 1].start + PAGE_SIZE == SPACE && VmaOk(vmas[n])
    ensures !Increasing(vmas)
  {
    PageGap(vmas[n - 1].start, vmas[n].start);
  }

  /** Below the top the search finds a gap: areas before it end by addr, areas after it start at the end. */
  lemma PlaceInOrder(vmas: seq<Vma>, addr: nat, len: nat)
    requires VmasOk(vmas) && Increasing(vmas) && PlaceFor(vmas, addr, len).Some?
    requires addr + len < SPACE && addr % PAGE_SIZE == 0 && len % PAGE_SIZE == 0
    ensures var k := PlaceFor(vmas, addr, len).value;
            && (forall i | 0 <= i < k :: vmas[i].start < addr)
            && (forall i | k <= i < |vmas| :: addr + len <= vmas[i].start)
  {
    var k := PlaceFor(vmas, addr, len).value;
    if k > 0 {
      assert VmaOk(vmas[k - 1]);
      EndsBelowTop(vmas[k - 1].start, addr + len);
    }
  }

  lemma EndsBelowTop(a: nat, end: nat)
    requires a < end < SPACE && a % PAGE_SIZE == 0 && end % PAGE_SIZE == 0
    ensures Wrap(a + PAGE_SIZE) == a + PAGE_SIZE
  {
  }

  lemma InsertedInOrder(vmas: seq<Vma>, next: seq<Vma>, k: nat, n: nat, addr: nat, end: nat)
    requires Increasing(vmas) && k <= |vmas| && k + n <= |next| && end == addr + n * PAGE_SIZE
    requires next == vmas[..k] + next[k..k + n] + vmas[k..]
    requires forall i | 0 <= i < k :: vmas[i].start < addr
    requires forall i | k <= i < |vmas| :: end <= vmas[i].start
    requires forall j | k <= j < k + n :: next[j].start == addr + (j - k) * PAGE_SIZE
    ensures Increasing(next)
  {
  }

  /** Two pages created over the top of an empty space come out in the wrong order. */
  lemma UnsortedOverTop(s: Space, t: Space, flags: nat)
    requires s.vmas == [] && VmasOk(t.vmas) && CreatedAtPlace(s, t, SPACE - PAGE_SIZE, 2 * PAGE_SIZE, flags)
    ensures t.vmas[0].start == SPACE - PAGE_SIZE && t.vmas[1].start == 0 && !Sorted(t.vmas)
  {
  }

  // ----- what is refused

  predicate Overlaps(v: Vma, addr: nat, len: nat)
  {
    v.start < addr + len && addr < v.start + v.size
  }

  ghost predicate Overlapped(vmas: seq<Vma>, addr: nat, len: nat)
  {
    exists v :: v in vmas && Overlaps(v, addr, len)
  }

  /** Below the top, a range is refused if and only if some area overlaps it. */
  lemma RefusedIff(vmas: seq<Vma>, addr: nat, len: nat)
    requires VmasOk(vmas) && Sorted(vmas) && addr % PAGE_SIZE == 0 && len % PAGE_SIZE == 0
    requires 0 < len && addr + len < SPACE
    ensures PlaceFor(vmas, addr, len).None? <==> Overlapped(vmas, addr, len)
  {
    SortedIffIncreasing(vmas);
    if PlaceFor(vmas, addr, len).Some? {
      PlaceInOrder(vmas, addr, len);
      forall v | v in vmas
        ensures !Overlaps(v, addr, len)
      {
        assert VmaOk(v);
        var i :| 0 <= i < |vmas| && vmas[i] == v;
        PageGap(v.start, addr);
      }
    } else {
      var v := vmas[FirstAbove(vmas, Wrap(addr + len), 0) - 1];
      assert VmaOk(v) && v in vmas;
      EndsBelowTop(v.start, addr + len);
    }
  }

  /** A range that overlaps nothing has nothing in the way of its pages. */
  lemma NothingInTheWay(vmas: seq<Vma>, addr: nat, len: nat)
    requires VmasOk(vmas) && addr % PAGE_SIZE == 0 && len % PAGE_SIZE == 0 && addr + len < SPACE
    requires !Overlapped(vmas, addr, len)
    ensures !InTheWay(vmas, Range(addr, len / PAGE_SIZE))
  {
    forall j: nat | j < len / PAGE_SIZE
      ensures !HasPage(vmas, PageAt(addr, j))
    {
      MultipleBelow(j, len / PAGE_SIZE);
      forall v | v in vmas
        ensures v.Page() != PageAt(addr, j)
      {
        assert VmaOk(v) && !Overlaps(v, addr, len);
        PageStep(addr, j);
        SamePageStart(v.start, addr + j * PAGE_SIZE);
      }
    }
  }

  /**
    Creating a range that ends below the top, on a sorted list: refused exactly if an area
    overlaps it, never in conflict with the page table, and the list stays sorted. Unless
    kmalloc fails, it succeeds exactly if there are frames for the pages and their leaves.
  */
  method CreateBelowTop(mm: Mm, pool: Pool, addr: nat, len: nat, flags: nat) returns (r: Outcome)
    requires mm.Valid(pool) && Sorted(mm.vmas) && addr % PAGE_SIZE == 0 && len % PAGE_SIZE == 0
    requires 0 < len && addr + len < SPACE
    modifies mm, mm.pt, pool`free, pool`heap, pool`refused
    ensures mm.Valid(pool) && Sorted(mm.vmas)
    ensures r.Ok() || r == Returned(-EFAULT) || r == Returned(-ENOMEM)
    ensures r == Returned(-EFAULT) <==> Overlapped(old(mm.vmas), addr, len)
    ensures pool.refused == old(pool.refused) ==>
              (r == Returned(-ENOMEM) <==>
               && !Overlapped(old(mm.vmas), addr, len)
               && len / PAGE_SIZE + |NewSlots(old(mm.pt.dir), Range(addr, len / PAGE_SIZE))| > |old(pool.free)|)
  {
    ghost var s := mm.View();
    RefusedIff(mm.vmas, addr, len);
    if !Overlapped(mm.vmas, addr, len) { NothingInTheWay(mm.vmas, addr, len); }
    r := mm.CreateUvm(pool, addr, len, flags);
    if r.Ok() { CreateSortedIff(s, mm.View(), addr, len, flags); }
  }
}
