/**
  The two-level MIPS page table: a directory of 1024 entries, each absent or a leaf
  table of 1024 page table entries held in a frame of its own.
*/
module PageTable {
  import opened Common
  import opened FramePool

  const ENTRIES: nat := 1024
  const PAGES: nat := 0x10_0000

  const ENOENT: int := 2
  const ENOMEM: int := 12
  const EEXIST: int := 17
  const EINVAL: int := 22

  datatype Leaf = Leaf(frame: nat, ptes: seq<nat>)

  type Directory = seq<Option<Leaf>>

  // ----- page table entries

  /** VALID | GLOBAL | CACHEABLE, and DIRTY for writable areas. */
  function Perm(flags: nat): (r: nat)
    ensures 0 < r < PAGE_SIZE
  {
    0x080 + 0x040 + 0x600 + if flags / 2 % 2 == 1 then 0x100 else 0
  }

  /** A page-aligned address with permission bits in the low twelve. */
  function MakePte(paddr: nat, flags: nat): (r: nat)
    requires paddr % PAGE_SIZE == 0
    ensures r > 0 && PteAddr(r) == paddr && r % PAGE_SIZE == Perm(flags)
  {
    paddr + Perm(flags)
  }

  function PteAddr(pte: nat): nat { pte - pte % PAGE_SIZE }

  /** Bit 1 of the area flags. */
  predicate MayWrite(flags: nat) { flags / 0x2 % 2 == 1 }

  /** Bit 8 of an entry; without it the hardware refuses to write. */
  predicate Dirty(pte: nat) { pte / 0x100 % 2 == 1 }

  /** The low twelve bits of an entry: valid, global and cacheable, dirty if writable, nothing else. */
  predicate Grants(pte: nat, writable: bool)
  {
    && pte / 0x80 % 2 == 1 && pte / 0x40 % 2 == 1 && pte / 0x200 % 8 == 3
    && (Dirty(pte) <==> writable) && pte % 0x40 == 0
  }

  /** An entry grants writing if and only if the flags allow it, and everything else regardless of them. */
  lemma EntryBits(paddr: nat, flags: nat)
    requires paddr % PAGE_SIZE == 0
    ensures Grants(MakePte(paddr, flags), MayWrite(flags)) && PteAddr(MakePte(paddr, flags)) == paddr
  {
    LowBits(paddr, Perm(flags));
    assert Grants(Perm(flags), MayWrite(flags));
  }

  lemma LowBits(paddr: nat, low: nat)
    requires paddr % PAGE_SIZE == 0 && low < PAGE_SIZE
    ensures (paddr + low) / 0x80 % 2 == low / 0x80 % 2 && (paddr + low) / 0x40 % 2 == low / 0x40 % 2
    ensures (paddr + low) / 0x100 % 2 == low / 0x100 % 2 && (paddr + low) / 0x200 % 8 == low / 0x200 % 8
    ensures (paddr + low) % 0x40 == low % 0x40
  {
    var k := paddr / PAGE_SIZE;
    Bit6(k, low);
    Bit7(k, low);
    Bit8(k, low);
    Bits9(k, low);
  }

  lemma Bit6(k: nat, low: nat)
    ensures (0x1000 * k + low) / 0x40 % 2 == low / 0x40 % 2 && (0x1000 * k + low) % 0x40 == low % 0x40
  {
    assert (0x1000 * k + low) / 0x40 == 2 * (32 * k) + low / 0x40;
  }

  lemma Bit7(k: nat, low: nat)
    ensures (0x1000 * k + low) / 0x80 % 2 == low / 0x80 % 2
  {
    assert (0x1000 * k + low) / 0x80 == 2 * (16 * k) + low / 0x80 by { Quotient(0x80, 32 * k, low); }
    AddEven(16 * k, low / 0x80);
  }

  lemma Bit8(k: nat, low: nat)
    ensures (0x1000 * k + low) / 0x100 % 2 == low / 0x100 % 2
  {
    assert (0x1000 * k + low) / 0x100 == 2 * (8 * k) + low / 0x100 by { Quotient(0x100, 16 * k, low); }
    AddEven(8 * k, low / 0x100);
  }

  lemma Bits9(k: nat, low: nat)
    ensures (0x1000 * k + low) / 0x200 % 8 == low / 0x200 % 8
  {
    assert (0x1000 * k + low) / 0x200 == 8 * k + low / 0x200 by { Quotient(0x200, 8 * k, low); }
  }

  // ----- the table as a flat map

  ghost predicate WellFormed(dir: Directory)
  {
    |dir| == ENTRIES && forall i | 0 <= i < ENTRIES && dir[i].Some? :: |dir[i].value.ptes| == ENTRIES
  }

  /** The entry of virtual page v, 0 where there is none. */
  function Pte(dir: Directory, v: nat): nat
    requires WellFormed(dir) && v < PAGES
  {
    var slot := dir[v / ENTRIES];
    if slot.None? then 0 else slot.value.ptes[v % ENTRIES]
  }

  /** The mapped pages with their entries. */
  ghost function Flat(dir: Directory): map<nat, nat>
    requires WellFormed(dir)
  {
    map v: nat | v < PAGES && Pte(dir, v) != 0 :: Pte(dir, v)
  }

  ghost predicate ZeroLeaf(leaf: Leaf)
  {
    forall j | 0 <= j < |leaf.ptes| :: leaf.ptes[j] == 0
  }

  ghost predicate HasLeaf(dir: Directory, f: nat)
  {
    exists i | 0 <= i < |dir| :: dir[i].Some? && dir[i].value.frame == f
  }

  ghost function LeafFrames(dir: Directory): set<nat>
  {
    set i | 0 <= i < |dir| && dir[i].Some? :: dir[i].value.frame
  }

  ghost predicate DistinctFrames(dir: Directory)
  {
    forall i, j | 0 <= i < j < |dir| && dir[i].Some? && dir[j].Some? :: dir[i].value.frame != dir[j].value.frame
  }

  /** Every entry that is not zero carries permission bits. */
  ghost predicate Flagged(dir: Directory)
    requires WellFormed(dir)
  {
    forall v: nat | v < PAGES && Pte(dir, v) != 0 :: Pte(dir, v) % PAGE_SIZE != 0
  }

  ghost predicate NoZeroLeaf(dir: Directory)
  {
    forall i | 0 <= i < |dir| && dir[i].Some? :: !ZeroLeaf(dir[i].value)
  }

  ghost predicate FramesOk(dir: Directory, free: set<nat>)
  {
    && DistinctFrames(dir)
    && (forall i | 0 <= i < |dir| && dir[i].Some? :: IsFrame(dir[i].value.frame) && dir[i].value.frame !in free)
  }

  ghost predicate Inv(dir: Directory, free: set<nat>)
  {
    WellFormed(dir) && FramesOk(dir, free) && Flagged(dir) && NoZeroLeaf(dir)
  }

  /** Whatever leaf a had, b still has, in the same frame. */
  ghost predicate Keeps(a: Directory, b: Directory)
  {
    |a| == |b| && forall i | 0 <= i < |a| && a[i].Some? :: b[i].Some? && b[i].value.frame == a[i].value.frame
  }

  lemma LeafOfPage(v: nat, i: nat, j: nat)
    requires i < ENTRIES && j < ENTRIES && v == i * ENTRIES + j
    ensures v < PAGES && v / ENTRIES == i && v % ENTRIES == j
  {
  }

  /** A leaf is present exactly when some page under it is mapped. */
  lemma LeafIffMapped(dir: Directory, i: nat)
    requires WellFormed(dir) && NoZeroLeaf(dir) && i < ENTRIES
    ensures dir[i].Some? <==> exists v :: v in Flat(dir) && v / ENTRIES == i
  {
    if dir[i].Some? {
      var j :| 0 <= j < ENTRIES && dir[i].value.ptes[j] != 0;
      LeafOfPage(i * ENTRIES + j, i, j);
      assert i * ENTRIES + j in Flat(dir);
    }
  }

  lemma SameLeaf(a: Directory, b: Directory, i: nat)
    requires WellFormed(a) && WellFormed(b) && Flat(a) == Flat(b) && i < ENTRIES
    requires a[i].Some? && b[i].Some? && a[i].value.frame == b[i].value.frame
    ensures a[i] == b[i]
  {
    forall j | 0 <= j < ENTRIES
      ensures a[i].value.ptes[j] == b[i].value.ptes[j]
    {
      var v := i * ENTRIES + j;
      LeafOfPage(v, i, j);
      assert v in Flat(a) <==> Pte(a, v) != 0;
      assert v in Flat(b) <==> Pte(b, v) != 0;
    }
    assert a[i].value.ptes == b[i].value.ptes;
  }

  /** The flat map and the frames of the surviving leaves determine the table. */
  lemma TableDetermined(a: Directory, m: Directory, b: Directory)
    requires WellFormed(a) && NoZeroLeaf(a) && WellFormed(b) && NoZeroLeaf(b) && Flat(a) == Flat(b)
    requires Keeps(a, m) && Keeps(b, m)
    ensures a == b
  {
    forall i | 0 <= i < ENTRIES
      ensures a[i] == b[i]
    {
      LeafIffMapped(a, i);
      LeafIffMapped(b, i);
      if a[i].Some? { SameLeaf(a, b, i); }
    }
  }

  // ----- changing one leaf or one entry

  function ZeroPtes(): (r: seq<nat>)
    ensures |r| == ENTRIES && forall j | 0 <= j < ENTRIES :: r[j] == 0
  {
    seq(ENTRIES, _ => 0)
  }

  function WithLeaf(dir: Directory, i: nat, f: nat): Directory
    requires i < |dir|
  {
    dir[i := Some(Leaf(f, ZeroPtes()))]
  }

  function SetPte(dir: Directory, v: nat, pte: nat): Directory
    requires WellFormed(dir) && v < PAGES && dir[v / ENTRIES].Some?
  {
    var leaf := dir[v / ENTRIES].value;
    dir[v / ENTRIES := Some(Leaf(leaf.frame, leaf.ptes[v % ENTRIES := pte]))]
  }

  lemma SetPteAt(dir: Directory, v: nat, pte: nat, u: nat)
    requires WellFormed(dir) && v < PAGES && dir[v / ENTRIES].Some? && u < PAGES
    ensures WellFormed(SetPte(dir, v, pte))
    ensures Pte(SetPte(dir, v, pte), u) == if u == v then pte else Pte(dir, u)
  {
  }

  lemma SetPteFlat(dir: Directory, v: nat, pte: nat)
    requires WellFormed(dir) && v < PAGES && dir[v / ENTRIES].Some?
    ensures WellFormed(SetPte(dir, v, pte)) && Keeps(dir, SetPte(dir, v, pte)) && Keeps(SetPte(dir, v, pte), dir)
    ensures Flat(SetPte(dir, v, pte)) == if pte == 0 then Flat(dir) - {v} else Flat(dir)[v := pte]
  {
    forall u: nat | u < PAGES
      ensures Pte(SetPte(dir, v, pte), u) == if u == v then pte else Pte(dir, u)
    {
      SetPteAt(dir, v, pte, u);
    }
  }

  lemma LeafFramesIff(dir: Directory, f: nat)
    ensures f in LeafFrames(dir) <==> HasLeaf(dir, f)
  {
  }

  lemma SameFrames(a: Directory, b: Directory)
    requires Keeps(a, b) && Keeps(b, a)
    ensures LeafFrames(a) == LeafFrames(b)
  {
  }

  lemma AddFrame(dir: Directory, i: nat, f: nat)
    requires i < |dir| && dir[i].None?
    ensures LeafFrames(WithLeaf(dir, i, f)) == LeafFrames(dir) + {f}
  {
    var next := WithLeaf(dir, i, f);
    forall g
      ensures g in LeafFrames(next) <==> g in LeafFrames(dir) || g == f
    {
      if g in LeafFrames(next) {
        var k :| 0 <= k < |next| && next[k].Some? && next[k].value.frame == g;
        assert k != i ==> dir[k] == next[k];
      }
      if g in LeafFrames(dir) {
        var k :| 0 <= k < |dir| && dir[k].Some? && dir[k].value.frame == g;
        assert dir[k] == next[k];
      }
      if g == f { assert next[i].Some?; }
    }
  }

  lemma RemoveFrame(dir: Directory, i: nat)
    requires i < |dir| && dir[i].Some? && DistinctFrames(dir)
    ensures LeafFrames(dir[i := None]) == LeafFrames(dir) - {dir[i].value.frame}
  {
    var next := dir[i := None];
    forall g
      ensures g in LeafFrames(next) <==> g in LeafFrames(dir) && g != dir[i].value.frame
    {
      if g in LeafFrames(next) {
        var k :| 0 <= k < |next| && next[k].Some? && next[k].value.frame == g;
        assert dir[k] == next[k];
      }
      if g in LeafFrames(dir) && g != dir[i].value.frame {
        var k :| 0 <= k < |dir| && dir[k].Some? && dir[k].value.frame == g;
        assert dir[k] == next[k];
      }
    }
  }

  // ----- dropping zero leaves

  /** The table after the zero leaves of the slots lo .. hi are dropped. */
  ghost predicate Pruned(before: Directory, after: Directory, lo: int, hi: int)
  {
    && |after| == |before|
    && forall i | 0 <= i < |before| ::
         after[i] == if lo <= i <= hi && before[i].Some? && ZeroLeaf(before[i].value) then None else before[i]
  }

  /** Frames only move between the free set and the leaves. */
  ghost predicate Conserved(dir: Directory, free: set<nat>, dir': Directory, free': set<nat>)
  {
    FramesOk(dir', free') && free' + LeafFrames(dir') == free + LeafFrames(dir)
  }

  lemma PruneFlat(before: Directory, after: Directory, lo: int, hi: int)
    requires WellFormed(before) && Pruned(before, after, lo, hi)
    ensures WellFormed(after) && Flat(after) == Flat(before) && Keeps(after, before)
  {
  }

  /** Same leaves, frames conserved: the same free set. */
  lemma FreeRestored(dir: Directory, free: set<nat>, free': set<nat>)
    requires FramesOk(dir, free) && Conserved(dir, free, dir, free')
    ensures free' == free
  {
  }

  /** The slot of the last page of k pages from v0, in 32-bit arithmetic: no pages end one before v0. */
  function LastSlot(v0: nat, k: nat): (r: nat)
    ensures r < ENTRIES
  {
    (v0 + k + PAGES - 1) % PAGES / ENTRIES
  }

  lemma LastSlotBounds(v0: nat, k: nat)
    requires v0 < PAGES && v0 + k <= PAGES
    ensures v0 / ENTRIES <= LastSlot(v0, k) + 1
    ensures k > 0 ==> LastSlot(v0, k) == (v0 + k - 1) / ENTRIES
    ensures k == 0 ==> LastSlot(v0, k) == if v0 == 0 then ENTRIES - 1 else (v0 - 1) / ENTRIES
  {
  }

  /** The scan for all-zero leaves under k pages from v0 comes to a slot without a leaf. */
  ghost predicate ScanFaults(dir: Directory, v0: nat, k: nat)
  {
    exists i | 0 <= i < |dir| && v0 / ENTRIES <= i <= LastSlot(v0, k) :: dir[i].None?
  }

  // ----- mapping a range

  /** The slots of the leaves that pages v0 .. v0 + k - 1 fall under. */
  predicate InSpan(i: int, v0: nat, k: nat)
  {
    k > 0 && v0 / ENTRIES <= i <= (v0 + k - 1) / ENTRIES
  }

  /** The slots under pages v0 .. v0 + k - 1 that have no leaf. */
  ghost function Missing(dir: Directory, v0: nat, k: nat): set<nat>
  {
    set i: nat | i < |dir| && InSpan(i, v0, k) && dir[i].None?
  }

  /** `dir` is `base` with zero leaves added under pages v0 .. v0 + k - 1, none of which is mapped. */
  ghost predicate Prepared(base: Directory, dir: Directory, v0: nat, k: nat)
    requires WellFormed(base) && v0 + k <= PAGES
  {
    && WellFormed(dir)
    && (forall i | 0 <= i < ENTRIES ::
          dir[i] == base[i] || (base[i].None? && dir[i].Some? && ZeroLeaf(dir[i].value) && InSpan(i, v0, k)))
    && (forall v: nat | v0 <= v < v0 + k :: dir[v / ENTRIES].Some? && Pte(base, v) == 0)
  }

  /** One more page of the range: its leaf was there, or has just been added. */
  lemma PrepareStep(base: Directory, dir: Directory, next: Directory, v0: nat, k: nat)
    requires WellFormed(base) && v0 + k < PAGES && Prepared(base, dir, v0, k) && WellFormed(next)
    requires var i := (v0 + k) / ENTRIES;
             next == dir || (dir[i].None? && exists f :: next == WithLeaf(dir, i, f))
    requires next[(v0 + k) / ENTRIES].Some? && Pte(next, v0 + k) == 0
    ensures Prepared(base, next, v0, k + 1)
  {
  }

  /** The first pass after k pages: leaves added, and frames taken for exactly those that were missing. */
  ghost predicate Progress(base: Directory, free: set<nat>, dir: Directory, free': set<nat>, v0: nat, k: nat)
    requires WellFormed(base) && v0 + k <= PAGES
  {
    Prepared(base, dir, v0, k) && Conserved(base, free, dir, free') && |free'| + |Missing(base, v0, k)| == |free|
  }

  /** One more page needs one more leaf exactly if its slot is still empty. */
  lemma MissingStep(base: Directory, dir: Directory, v0: nat, k: nat)
    requires WellFormed(base) && v0 + k < PAGES && Prepared(base, dir, v0, k)
    ensures var i := (v0 + k) / ENTRIES;
            if dir[i].None? then i !in Missing(base, v0, k) && Missing(base, v0, k + 1) == Missing(base, v0, k) + {i}
            else Missing(base, v0, k + 1) == Missing(base, v0, k)
  {
    var i := (v0 + k) / ENTRIES;
    forall j
      ensures InSpan(j, v0, k + 1) <==> InSpan(j, v0, k) || j == i
    {
      SpanStep(j, v0, k);
    }
    if InSpan(i, v0, k) { var v := PageInSpan(i, v0, k); }
  }

  lemma PreparedPte(base: Directory, dir: Directory, v0: nat, k: nat, v: nat)
    requires WellFormed(base) && v0 + k <= PAGES && Prepared(base, dir, v0, k) && v < PAGES
    ensures Pte(dir, v) == Pte(base, v)
  {
  }

  lemma ProgressStart(base: Directory, free: set<nat>, v0: nat)
    requires WellFormed(base) && FramesOk(base, free) && v0 <= PAGES
    ensures Progress(base, free, base, free, v0, 0)
  {
    assert Missing(base, v0, 0) == {};
  }

  /** Page k of the range has its leaf, newly made or not, and no entry. */
  lemma ProgressStep(base: Directory, free: set<nat>, dir: Directory, free1: set<nat>, next: Directory, free2: set<nat>,
                     v0: nat, k: nat)
    requires WellFormed(base) && v0 + k < PAGES && Progress(base, free, dir, free1, v0, k) && WellFormed(next)
    requires Conserved(dir, free1, next, free2) && Pte(next, v0 + k) == 0
    requires var i := (v0 + k) / ENTRIES;
             if dir[i].Some? then next == dir && free2 == free1
             else (exists f :: next == WithLeaf(dir, i, f)) && |free2| + 1 == |free1|
    ensures Progress(base, free, next, free2, v0, k + 1)
  {
    PrepareStep(base, dir, next, v0, k);
    MissingCount(base, dir, v0, k, |free1|, |free2|);
    ConservedTwice(base, free, dir, free1, next, free2);
  }

  lemma MissingCount(base: Directory, dir: Directory, v0: nat, k: nat, before: nat, after: nat)
    requires WellFormed(base) && v0 + k < PAGES && Prepared(base, dir, v0, k)
    requires after + (if dir[(v0 + k) / ENTRIES].None? then 1 else 0) == before
    ensures after + |Missing(base, v0, k + 1)| == before + |Missing(base, v0, k)|
  {
    MissingStep(base, dir, v0, k);
  }

  lemma ConservedTwice(a: Directory, fa: set<nat>, b: Directory, fb: set<nat>, c: Directory, fc: set<nat>)
    requires Conserved(a, fa, b, fb) && Conserved(b, fb, c, fc)
    ensures Conserved(a, fa, c, fc)
  {
  }

  lemma SpanStep(j: int, v0: nat, k: nat)
    ensures InSpan(j, v0, k + 1) <==> InSpan(j, v0, k) || j == (v0 + k) / ENTRIES
  {
  }

  lemma MissingGrows(dir: Directory, v0: nat, k: nat, n: nat)
    requires k <= n
    ensures Missing(dir, v0, k) <= Missing(dir, v0, n)
  {
    forall i | InSpan(i, v0, k)
      ensures InSpan(i, v0, n)
    {
      SpanGrows(i, v0, k, n);
    }
  }

  lemma SpanGrows(i: int, v0: nat, k: nat, n: nat)
    requires k <= n && InSpan(i, v0, k)
    ensures InSpan(i, v0, n)
  {
  }

  lemma {:induction false} SmallerSet(a: set<nat>, b: set<nat>)
    requires a <= b
    ensures |a| <= |b| && (a != b ==> |a| < |b|)
  {
    if a != {} {
      var x :| x in a;
      SmallerSet(a - {x}, b - {x});
    }
  }

  /** A first pass that stopped for want of a frame needs more leaves than there were frames. */
  lemma TooManyMissing(base: Directory, dir: Directory, v0: nat, k: nat, n: nat)
    requires WellFormed(base) && v0 + n <= PAGES && k < n && Prepared(base, dir, v0, k) && dir[(v0 + k) / ENTRIES].None?
    ensures |Missing(base, v0, n)| > |Missing(base, v0, k)|
  {
    MissingStep(base, dir, v0, k);
    MissingGrows(base, v0, k + 1, n);
    SmallerSet(Missing(base, v0, k), Missing(base, v0, n));
  }

  lemma PreparedFlat(base: Directory, dir: Directory, v0: nat, k: nat)
    requires WellFormed(base) && v0 + k <= PAGES && Prepared(base, dir, v0, k)
    ensures Flat(dir) == Flat(base) && Keeps(base, dir)
  {
  }

  /** Dropping the zero leaves of the span takes the prepared table back. */
  lemma PruneUndoesPrepare(base: Directory, dir: Directory, after: Directory, v0: nat, k: nat)
    requires WellFormed(base) && NoZeroLeaf(base) && v0 + k <= PAGES && Prepared(base, dir, v0, k)
    requires v0 < PAGES && Pruned(dir, after, v0 / ENTRIES, LastSlot(v0, k))
    ensures after == base
  {
    LastSlotBounds(v0, k);
  }

  /** The scan over no pages at v comes to an absent leaf. */
  ghost predicate ReadsAbsent(dir: Directory, v: nat)
    requires WellFormed(dir) && v < PAGES
  {
    if v == 0 then SomeSlotEmpty(dir) else v % ENTRIES != 0 && dir[v / ENTRIES].None?
  }

  ghost predicate SomeSlotEmpty(dir: Directory)
  {
    exists i | 0 <= i < |dir| :: dir[i].None?
  }

  /**
    The scan that undoes k prepared pages reads through an absent leaf exactly if no
    page was prepared and the first page's leaf is absent without starting a leaf of
    its own, or the first page is page 0 and any slot of the directory is empty.
  */
  lemma RollbackFaultsIff(base: Directory, dir: Directory, v0: nat, k: nat)
    requires WellFormed(base) && v0 < PAGES && v0 + k <= PAGES && Prepared(base, dir, v0, k)
    ensures ScanFaults(dir, v0, k) <==>
              k == 0 && ReadsAbsent(base, v0)
  {
    LastSlotBounds(v0, k);
    if k > 0 {
      forall i | 0 <= i < |dir| && v0 / ENTRIES <= i <= LastSlot(v0, k)
        ensures dir[i].Some?
      {
        var v := PageInSpan(i, v0, k);
      }
    } else {
      assert dir == base;
    }
  }

  predicate InPages(v: int, v0: nat, k: nat) { v0 <= v < v0 + k }

  /** The entries of a contiguous range. */
  ghost function RangeMap(v0: nat, k: nat, paddr: nat, flags: nat): map<nat, nat>
    requires paddr % PAGE_SIZE == 0
  {
    map v: nat | v0 <= v < v0 + k && InPages(v, v0, k) :: RangePte(paddr, v - v0, flags)
  }

  function RangePte(paddr: nat, j: nat, flags: nat): (r: nat)
    requires paddr % PAGE_SIZE == 0
    ensures r > 0 && r % PAGE_SIZE != 0 && PteAddr(r) == paddr + j * PAGE_SIZE
  {
    PageStep(paddr, j);
    MakePte(paddr + j * PAGE_SIZE, flags)
  }

  lemma PageStep(a: nat, j: nat)
    requires a % PAGE_SIZE == 0
    ensures (a + j * PAGE_SIZE) % PAGE_SIZE == 0
  {
  }

  lemma FlatFlagged(dir: Directory)
    requires WellFormed(dir)
    ensures Flagged(dir) <==> forall v | v in Flat(dir) :: Flat(dir)[v] % PAGE_SIZE != 0
  {
    if Flagged(dir) {
      forall v | v in Flat(dir) ensures Flat(dir)[v] % PAGE_SIZE != 0 { assert Pte(dir, v) != 0; }
    } else {
      var v: nat :| v < PAGES && Pte(dir, v) != 0 && Pte(dir, v) % PAGE_SIZE == 0;
      assert v in Flat(dir);
    }
  }

  /** Once the range is filled in, every leaf under it has an entry. */
  lemma FilledNoZero(base: Directory, mid: Directory, dir: Directory, v0: nat, k: nat, paddr: nat, flags: nat)
    requires WellFormed(base) && NoZeroLeaf(base) && v0 + k <= PAGES && Prepared(base, mid, v0, k)
    requires WellFormed(dir) && Keeps(dir, mid) && paddr % PAGE_SIZE == 0
    requires Flat(dir) == Flat(base) + RangeMap(v0, k, paddr, flags)
    ensures NoZeroLeaf(dir)
  {
    forall i | 0 <= i < ENTRIES && dir[i].Some?
      ensures !ZeroLeaf(dir[i].value)
    {
      if base[i].Some? {
        LeafIffMapped(base, i);
        var v :| v in Flat(base) && v / ENTRIES == i;
        MappedNotZero(dir, v);
      } else {
        var v := PageInSpan(i, v0, k);
        assert v in RangeMap(v0, k, paddr, flags);
        MappedNotZero(dir, v);
      }
    }
  }

  lemma PageInSpan(i: nat, v0: nat, k: nat) returns (v: nat)
    requires InSpan(i, v0, k)
    ensures InPages(v, v0, k) && v / ENTRIES == i
  {
    v := if v0 / ENTRIES == i then v0 else i * ENTRIES;
  }

  lemma MappedNotZero(dir: Directory, v: nat)
    requires WellFormed(dir) && v in Flat(dir)
    ensures dir[v / ENTRIES].Some? && !ZeroLeaf(dir[v / ENTRIES].value)
  {
  }

  /** Pages v0 .. v0 + k - 1 have been written, and no other. */
  ghost predicate Written(base: Directory, dir: Directory, v0: nat, k: nat, paddr: nat, flags: nat)
    requires WellFormed(base) && WellFormed(dir) && paddr % PAGE_SIZE == 0
  {
    forall u: nat | u < PAGES ::
      Pte(dir, u) == if InPages(u, v0, k) then RangePte(paddr, u - v0, flags) else Pte(base, u)
  }

  lemma WrittenStep(base: Directory, dir: Directory, v0: nat, k: nat, paddr: nat, flags: nat)
    requires WellFormed(base) && WellFormed(dir) && paddr % PAGE_SIZE == 0 && v0 + k < PAGES
    requires Written(base, dir, v0, k, paddr, flags) && dir[(v0 + k) / ENTRIES].Some?
    ensures WellFormed(SetPte(dir, v0 + k, RangePte(paddr, k, flags)))
    ensures Written(base, SetPte(dir, v0 + k, RangePte(paddr, k, flags)), v0, k + 1, paddr, flags)
  {
  }

  lemma WrittenFlat(base: Directory, dir: Directory, v0: nat, k: nat, paddr: nat, flags: nat)
    requires WellFormed(base) && WellFormed(dir) && paddr % PAGE_SIZE == 0 && v0 + k <= PAGES
    requires Written(base, dir, v0, k, paddr, flags)
    ensures Flat(dir) == Flat(base) + RangeMap(v0, k, paddr, flags)
  {
  }

  lemma KeepsBoth(a: Directory, b: Directory, c: Directory)
    requires Keeps(a, b) && Keeps(b, a) && Keeps(b, c) && Keeps(c, b)
    ensures Keeps(a, c) && Keeps(c, a)
  {
  }

  /** Both passes together: the range is added, and the invariant holds again. */
  lemma MapDone(base: Directory, mid: Directory, dir: Directory, free: set<nat>, v0: nat, n: nat, paddr: nat,
                flags: nat)
    requires WellFormed(base) && NoZeroLeaf(base) && Flagged(base) && v0 + n <= PAGES && paddr % PAGE_SIZE == 0
    requires Prepared(base, mid, v0, n) && FramesOk(mid, free)
    requires WellFormed(dir) && Keeps(mid, dir) && Keeps(dir, mid)
    requires Flat(dir) == Flat(mid) + RangeMap(v0, n, paddr, flags)
    ensures Inv(dir, free) && Keeps(base, dir) && LeafFrames(dir) == LeafFrames(mid)
    ensures Flat(dir) == Flat(base) + RangeMap(v0, n, paddr, flags)
    ensures Flat(base).Keys !! RangeMap(v0, n, paddr, flags).Keys
  {
    PreparedFlat(base, mid, v0, n);
    FilledNoZero(base, mid, dir, v0, n, paddr, flags);
    SameFrames(mid, dir);
    FilledFlagged(base, dir, v0, n, paddr, flags);
  }

  lemma FilledFlagged(base: Directory, dir: Directory, v0: nat, n: nat, paddr: nat, flags: nat)
    requires WellFormed(base) && Flagged(base) && WellFormed(dir) && paddr % PAGE_SIZE == 0
    requires Flat(dir) == Flat(base) + RangeMap(v0, n, paddr, flags)
    ensures Flagged(dir)
  {
    FlatFlagged(base);
    FlatFlagged(dir);
    forall v | v in Flat(dir)
      ensures Flat(dir)[v] % PAGE_SIZE != 0
    {
      if v in RangeMap(v0, n, paddr, flags) {
        assert Flat(dir)[v] == RangePte(paddr, v - v0, flags);
      } else {
        assert Flat(dir)[v] == Flat(base)[v];
      }
    }
  }

  /** No page of the range is mapped. */
  ghost predicate RangeFree(dir: Directory, v0: nat, n: nat)
    requires WellFormed(dir)
  {
    forall v: nat | InPages(v, v0, n) :: v !in Flat(dir)
  }

  /** Mapping n pages at v0 can be done: nothing is in the way and there are frames for all leaves. */
  ghost predicate CanMap(dir: Directory, free: set<nat>, v0: nat, n: nat)
    requires WellFormed(dir)
  {
    RangeFree(dir, v0, n) && |Missing(dir, v0, n)| <= |free|
  }

  /** The number of leaf tables that mapping page v needs. */
  ghost function LeafCost(dir: Directory, v: nat): nat
    requires WellFormed(dir) && v < PAGES
  {
    if dir[v / ENTRIES].None? then 1 else 0
  }

  lemma OnePageCan(dir: Directory, free: set<nat>, v: nat)
    requires WellFormed(dir) && v < PAGES
    ensures |Missing(dir, v, 1)| == LeafCost(dir, v)
    ensures CanMap(dir, free, v, 1) <==> v !in Flat(dir) && |free| >= LeafCost(dir, v)
  {
    assert Missing(dir, v, 1) == if dir[v / ENTRIES].None? then {v / ENTRIES} else {};
    assert InPages(v, v, 1);
  }

  /** The first page is mapped already, or its leaf is missing and there is no frame for it. */
  ghost predicate FirstFails(dir: Directory, free: set<nat>, v0: nat)
    requires WellFormed(dir) && v0 < PAGES
  {
    v0 in Flat(dir) || (dir[v0 / ENTRIES].None? && free == {})
  }

  /** Why the first pass stops after k of n pages. */
  ghost predicate StopsFor(rc: int, dir: Directory, free: set<nat>, v0: nat, n: nat, k: nat)
    requires WellFormed(dir) && v0 < PAGES
  {
    && (rc == -ENOMEM || rc == -EEXIST)
    && (rc == -EEXIST ==> !RangeFree(dir, v0, n))
    && (rc == -ENOMEM ==> |Missing(dir, v0, n)| > |free|)
    && (k == 0 ==> FirstFails(dir, free, v0))
  }

  lemma StopsForFrames(base: Directory, dir: Directory, free: set<nat>, v0: nat, n: nat, k: nat)
    requires WellFormed(base) && v0 < PAGES && k < n && v0 + n <= PAGES && Prepared(base, dir, v0, k)
    requires dir[(v0 + k) / ENTRIES].None? && |Missing(base, v0, k)| == |free|
    ensures StopsFor(-ENOMEM, base, free, v0, n, k)
  {
    TooManyMissing(base, dir, v0, k, n);
    assert Missing(base, v0, 0) == {};
  }

  lemma StopsForPage(base: Directory, dir: Directory, free: set<nat>, v0: nat, n: nat, k: nat)
    requires WellFormed(base) && v0 < PAGES && k < n && v0 + n <= PAGES && Prepared(base, dir, v0, k)
    requires Pte(dir, v0 + k) != 0
    ensures StopsFor(-EEXIST, base, free, v0, n, k)
  {
    PreparedPte(base, dir, v0, k, v0 + k);
    assert InPages(v0 + k, v0, n) && v0 + k in Flat(base);
  }

  /** Mapping n pages at v0 fails at the first page, and the rollback reads through an absent leaf. */
  ghost predicate MapFaults(dir: Directory, free: set<nat>, v0: nat, n: nat)
    requires WellFormed(dir) && v0 < PAGES
  {
    n > 0 && FirstFails(dir, free, v0) && ReadsAbsent(dir, v0)
  }

  /** Out of frames, the first page at 1 MiB of an empty table faults; the first page at 4 MiB does not. */
  lemma FirstPageFaults(dir: Directory)
    requires |dir| == ENTRIES && forall i | 0 <= i < ENTRIES :: dir[i].None?
    ensures MapFaults(dir, {}, 0x100000 / PAGE_SIZE, 1) && !MapFaults(dir, {}, 0x400000 / PAGE_SIZE, 1)
  {
  }

  // ----- the table itself

  datatype UnmapResult = NoLeaf | Unmapped(bytes: nat, paddr: nat)

  class Table {
    var dir: Directory

    /** Set once the code has read through the pointer of an absent leaf. */
    var faulted: bool

    constructor ()
      ensures |dir| == ENTRIES && (forall i | 0 <= i < ENTRIES :: dir[i].None?) && !faulted
    {
      dir, faulted := seq(ENTRIES, _ => None), false;
    }

    method IsZero(i: nat) returns (zero: bool)
      requires WellFormed(dir) && i < ENTRIES && dir[i].Some?
      ensures zero <==> ZeroLeaf(dir[i].value)
    {
      var j := 0;
      while j < ENTRIES
        invariant 0 <= j <= ENTRIES && forall k | 0 <= k < j :: dir[i].value.ptes[k] == 0
      {
        if dir[i].value.ptes[j] != 0 { return false; }
        j := j + 1;
      }
      zero := true;
    }

    /**
      Free the leaf tables of k pages from v0 that have no entry left. A slot without a
      leaf has nothing to free, but the code does not test for that: it reads on.
    */
    method FreeIntermediate(pool: Pool, v0: nat, k: nat)
      requires WellFormed(dir) && FramesOk(dir, pool.free) && pool.Valid() && v0 < PAGES && v0 + k <= PAGES
      modifies this, pool`free
      ensures pool.Valid() && Conserved(old(dir), old(pool.free), dir, pool.free)
      ensures Pruned(old(dir), dir, v0 / ENTRIES, LastSlot(v0, k))
      ensures faulted == (old(faulted) || ScanFaults(old(dir), v0, k))
    {
      LastSlotBounds(v0, k);
      var pdx, pdxEnd := v0 / ENTRIES, LastSlot(v0, k);
      while pdx <= pdxEnd
        invariant v0 / ENTRIES <= pdx <= pdxEnd + 1 && pool.Valid() && WellFormed(dir)
        invariant Pruned(old(dir), dir, v0 / ENTRIES, pdx - 1)
        invariant Conserved(old(dir), old(pool.free), dir, pool.free)
        invariant faulted == (old(faulted) || exists i | v0 / ENTRIES <= i < pdx :: old(dir)[i].None?)
      {
        if dir[pdx].None? {
          faulted := true;
        } else {
          var zero := IsZero(pdx);
          if zero { DropLeaf(pool, pdx); }
        }
        pdx := pdx + 1;
      }
    }

    method DropLeaf(pool: Pool, i: nat)
      requires WellFormed(dir) && FramesOk(dir, pool.free) && pool.Valid() && i < ENTRIES && dir[i].Some?
      modifies this`dir, pool`free
      ensures dir == old(dir)[i := None] && pool.Valid()
      ensures Conserved(old(dir), old(pool.free), dir, pool.free)
    {
      RemoveFrame(dir, i);
      var f := dir[i].value.frame;
      LeafFramesIff(dir, f);
      pool.PgFree(f);
      dir := dir[i := None];
    }

    /** Find the leaf for page v, creating it on request. */
    method GetPageDesc(pool: Pool, v: nat, create: bool) returns (rc: int)
      requires WellFormed(dir) && FramesOk(dir, pool.free) && pool.Valid() && v < PAGES
      modifies this`dir, pool`free
      ensures pool.Valid() && Conserved(old(dir), old(pool.free), dir, pool.free)
      ensures rc <= 0 && (rc == 0 <==> (old(dir)[v / ENTRIES].Some? || (create && old(pool.free) != {})))
      ensures rc == -ENOMEM <==> old(dir)[v / ENTRIES].None? && create && old(pool.free) == {}
      ensures rc != 0 || old(dir)[v / ENTRIES].Some? ==> dir == old(dir) && pool.free == old(pool.free)
      ensures rc == 0 && old(dir)[v / ENTRIES].None? ==> exists f :: dir == WithLeaf(old(dir), v / ENTRIES, f)
      ensures WellFormed(dir) && (rc == 0 && old(dir)[v / ENTRIES].None? ==> Pte(dir, v) == 0)
      ensures |pool.free| + (if rc == 0 && old(dir)[v / ENTRIES].None? then 1 else 0) == |old(pool.free)|
    {
      var i := v / ENTRIES;
      if dir[i].Some? { return 0; }
      if !create { return -ENOENT; }
      rc := AddLeaf(pool, i);
    }

    /** A new leaf without entries, if there is a frame for it. */
    method AddLeaf(pool: Pool, i: nat) returns (rc: int)
      requires WellFormed(dir) && FramesOk(dir, pool.free) && pool.Valid() && i < ENTRIES && dir[i].None?
      modifies this`dir, pool`free
      ensures pool.Valid() && Conserved(old(dir), old(pool.free), dir, pool.free)
      ensures rc == if old(pool.free) == {} then -ENOMEM else 0
      ensures rc != 0 ==> dir == old(dir) && pool.free == old(pool.free)
      ensures rc == 0 ==> (exists f :: dir == WithLeaf(old(dir), i, f)) && |pool.free| + 1 == |old(pool.free)|
    {
      var r := pool.PgAlloc();
      if r.None? { return -ENOMEM; }
      AddFrame(dir, i, r.value);
      dir := WithLeaf(dir, i, r.value);
      rc := 0;
    }

    /** Where the first pass stands after k of n pages, and why it stopped if it did. */
    ghost predicate Passed(pool: Pool, base: Directory, free: set<nat>, v0: nat, n: nat, k: nat, rc: int)
      requires WellFormed(base) && v0 < PAGES && k <= n && v0 + n <= PAGES
      reads this`dir, pool`free
    {
      && pool.Valid() && Progress(base, free, dir, pool.free, v0, k)
      && (rc != 0 ==> k < n && StopsFor(rc, base, free, v0, n, k))
    }

    /** First pass: make sure that every page of the range has a leaf and no entry yet. */
    method Prepare(pool: Pool, v0: nat, n: nat, ghost base: Directory, ghost free: set<nat>) returns (rc: int, k: nat)
      requires WellFormed(base) && v0 < PAGES && v0 + n <= PAGES && Passed(pool, base, free, v0, n, 0, 0)
      modifies this`dir, pool`free
      ensures k <= n && Passed(pool, base, free, v0, n, k, rc) && (rc == 0 <==> k == n)
    {
      k, rc := 0, 0;
      while k < n && rc == 0
        invariant 0 <= k <= n && Passed(pool, base, free, v0, n, k, rc)
        decreases n - k, if rc == 0 then 1 else 0
      {
        rc, k := PreparePage(pool, v0, k, base, free, n);
      }
    }

    /** One page of the first pass, and how many pages are then done. */
    method PreparePage(pool: Pool, v0: nat, k: nat, ghost base: Directory, ghost free: set<nat>, ghost n: nat)
      returns (rc: int, next: nat)
      requires WellFormed(base) && v0 < PAGES && k < n && v0 + n <= PAGES && Passed(pool, base, free, v0, n, k, 0)
      modifies this`dir, pool`free
      ensures next == if rc == 0 then k + 1 else k
      ensures Passed(pool, base, free, v0, n, next, rc)
    {
      rc := GetPageDesc(pool, v0 + k, true);
      if rc == -ENOMEM {
        StopsForFrames(base, dir, free, v0, n, k);
        return rc, k;
      }
      if Pte(dir, v0 + k) != 0 {
        StopsForPage(base, dir, free, v0, n, k);
        return -EEXIST, k;
      }
      ProgressStep(base, free, old(dir), old(pool.free), dir, pool.free, v0, k);
      next := k + 1;
    }

    /** Second pass: write the entries. */
    method Fill(v0: nat, n: nat, paddr: nat, flags: nat)
      requires WellFormed(dir) && v0 + n <= PAGES && paddr % PAGE_SIZE == 0
      requires forall v: nat | v0 <= v < v0 + n :: dir[v / ENTRIES].Some?
      modifies this`dir
      ensures WellFormed(dir) && Keeps(old(dir), dir) && Keeps(dir, old(dir))
      ensures Flat(dir) == old(Flat(dir)) + RangeMap(v0, n, paddr, flags)
    {
      var k := 0;
      while k < n
        invariant 0 <= k <= n && WellFormed(dir) && Keeps(old(dir), dir) && Keeps(dir, old(dir))
        invariant Written(old(dir), dir, v0, k, paddr, flags)
      {
        var pte := RangePte(paddr, k, flags);
        WrittenStep(old(dir), dir, v0, k, paddr, flags);
        SetPteFlat(dir, v0 + k, pte);
        KeepsBoth(old(dir), dir, SetPte(dir, v0 + k, pte));
        dir := SetPte(dir, v0 + k, pte);
        k := k + 1;
      }
      WrittenFlat(old(dir), dir, v0, n, paddr, flags);
    }

    /**
      Map `size` bytes at vaddr to physical memory at paddr. Either exactly the
      range is added to the map, or the table and the free frames are as before.
    */
    method MapPages(pool: Pool, vaddr: nat, paddr: nat, size: nat, flags: nat) returns (rc: int)
      requires Inv(dir, pool.free) && pool.Valid() && vaddr < SPACE && vaddr + size <= SPACE
      modifies this, pool`free
      ensures pool.Valid() && Inv(dir, pool.free) && Conserved(old(dir), old(pool.free), dir, pool.free)
      ensures rc == 0 || rc == -EINVAL || rc == -ENOMEM || rc == -EEXIST
      ensures rc == -EINVAL <==> !PagesOnly(vaddr, paddr, size)
      ensures rc == 0 <==> rc != -EINVAL && CanMap(old(dir), old(pool.free), vaddr / PAGE_SIZE, size / PAGE_SIZE)
      ensures rc == -EEXIST ==> !RangeFree(old(dir), vaddr / PAGE_SIZE, size / PAGE_SIZE)
      ensures rc == -ENOMEM ==> |Missing(old(dir), vaddr / PAGE_SIZE, size / PAGE_SIZE)| > |old(pool.free)|
      ensures rc == 0 ==> Flat(dir) == old(Flat(dir)) + RangeMap(vaddr / PAGE_SIZE, size / PAGE_SIZE, paddr, flags)
      ensures rc == 0 ==> Keeps(old(dir), dir)
      ensures rc == 0 ==> |pool.free| + |Missing(old(dir), vaddr / PAGE_SIZE, size / PAGE_SIZE)| == |old(pool.free)|
      ensures rc != 0 ==> dir == old(dir) && pool.free == old(pool.free)
      ensures faulted == (old(faulted) ||
                          (rc != -EINVAL && MapFaults(old(dir), old(pool.free), vaddr / PAGE_SIZE, size / PAGE_SIZE)))
    {
      if paddr % PAGE_SIZE != 0 || size % PAGE_SIZE != 0 || vaddr % PAGE_SIZE != 0 { return -EINVAL; }
      rc := MapRange(pool, vaddr / PAGE_SIZE, size / PAGE_SIZE, paddr, flags);
    }

    /** Both passes, for n pages from v0. */
    method MapRange(pool: Pool, v0: nat, n: nat, paddr: nat, flags: nat) returns (rc: int)
      requires Inv(dir, pool.free) && pool.Valid() && v0 < PAGES && v0 + n <= PAGES && paddr % PAGE_SIZE == 0
      modifies this, pool`free
      ensures pool.Valid() && Inv(dir, pool.free) && Conserved(old(dir), old(pool.free), dir, pool.free)
      ensures rc == 0 || rc == -ENOMEM || rc == -EEXIST
      ensures rc == -EEXIST ==> !RangeFree(old(dir), v0, n)
      ensures rc == -ENOMEM ==> |Missing(old(dir), v0, n)| > |old(pool.free)|
      ensures rc == 0 ==> RangeFree(old(dir), v0, n) && |pool.free| + |Missing(old(dir), v0, n)| == |old(pool.free)|
      ensures rc == 0 ==> Flat(dir) == old(Flat(dir)) + RangeMap(v0, n, paddr, flags) && Keeps(old(dir), dir)
      ensures rc != 0 ==> dir == old(dir) && pool.free == old(pool.free)
      ensures faulted == (old(faulted) || MapFaults(old(dir), old(pool.free), v0, n))
    {
      rc := FirstPass(pool, v0, n);
      if rc != 0 { return; }
      ghost var mid := dir;
      Fill(v0, n, paddr, flags);
      MapDone(old(dir), mid, dir, pool.free, v0, n, paddr, flags);
    }

    /** The first pass with its rollback. */
    method FirstPass(pool: Pool, v0: nat, n: nat) returns (rc: int)
      requires Inv(dir, pool.free) && pool.Valid() && v0 < PAGES && v0 + n <= PAGES
      modifies this, pool`free
      ensures pool.Valid() && Conserved(old(dir), old(pool.free), dir, pool.free)
      ensures rc == 0 || rc == -ENOMEM || rc == -EEXIST
      ensures rc == -EEXIST ==> !RangeFree(old(dir), v0, n)
      ensures rc == -ENOMEM ==> |Missing(old(dir), v0, n)| > |old(pool.free)|
      ensures rc == 0 ==> RangeFree(old(dir), v0, n) && |pool.free| + |Missing(old(dir), v0, n)| == |old(pool.free)|
      ensures rc == 0 ==> Prepared(old(dir), dir, v0, n)
      ensures rc != 0 ==> dir == old(dir) && pool.free == old(pool.free)
      ensures faulted == (old(faulted) || MapFaults(old(dir), old(pool.free), v0, n))
    {
      ghost var base, free := dir, pool.free;
      ProgressStart(base, free, v0);
      var k;
      rc, k := Prepare(pool, v0, n, base, free);
      if rc == 0 { AllPrepared(base, dir, v0, n); }
      PrepareFaults(base, free, dir, pool.free, v0, n, k, rc);
      if rc != 0 { Rollback(pool, v0, k, base, free); }
    }

    /** A failed first pass: the leaves it created go again. */
    method Rollback(pool: Pool, v0: nat, k: nat, ghost base: Directory, ghost free: set<nat>)
      requires Inv(base, free) && v0 < PAGES && v0 + k <= PAGES && Prepared(base, dir, v0, k)
      requires pool.Valid() && Conserved(base, free, dir, pool.free)
      modifies this, pool`free
      ensures pool.Valid() && dir == base && pool.free == free
      ensures faulted == (old(faulted) || ScanFaults(old(dir), v0, k))
    {
      ghost var mid := dir;
      FreeIntermediate(pool, v0, k);
      PruneUndoesPrepare(base, mid, dir, v0, k);
      FreeRestored(base, free, pool.free);
    }

    /**
      Unmap at vaddr. The end address is 32 bits wide, so a range that ends at the top
      of the address space has no pages. The comparison with the next expected frame
      uses the whole entry, permission bits included, so it never matches and at most
      one page is unmapped; a missing leaf table, even under the second page, is a panic.
    */
    method UnmapPages(pool: Pool, vaddr: nat, size: nat) returns (r: UnmapResult)
      requires Inv(dir, pool.free) && pool.Valid() && vaddr < SPACE && size < SPACE
      modifies this, pool`free
      ensures pool.Valid()
      ensures r.NoLeaf? <==> UnmapPanics(old(dir), vaddr, Wrap(vaddr + size))
      ensures !r.NoLeaf? ==> Inv(dir, pool.free) && Conserved(old(dir), old(pool.free), dir, pool.free)
      ensures !r.NoLeaf? && vaddr >= Wrap(vaddr + size) ==>
                r == Unmapped(0, 0) && dir == old(dir) && pool.free == old(pool.free)
      ensures !r.NoLeaf? && vaddr < Wrap(vaddr + size) ==>
                && r == Unmapped(PAGE_SIZE, PteAddr(Pte(old(dir), vaddr / PAGE_SIZE)))
                && Keeps(dir, old(dir)) && Flat(dir) == old(Flat(dir)) - {vaddr / PAGE_SIZE}
      ensures !r.NoLeaf? ==>
                faulted == (old(faulted) ||
                            (vaddr >= Wrap(vaddr + size) && ScanFaults(old(dir), vaddr / PAGE_SIZE, 0)))
    {
      var v0 := vaddr / PAGE_SIZE;
      var panicked, k, paddr := ClearEntries(pool, vaddr, Wrap(vaddr + size));
      if panicked { return NoLeaf; }
      ghost var mid := dir;
      LastSlotBounds(v0, k);
      if k > 0 { UnmapFacts(old(dir), v0); }
      FreeIntermediate(pool, v0, k);
      if k > 0 { UnmapDone(old(dir), mid, dir, v0); } else { NothingPruned(mid, dir, pool.free, old(pool.free), v0); }
      r := Unmapped(k * PAGE_SIZE, paddr);
    }

    /** The unmapping loop: how many entries it cleared, and the first frame. */
    method ClearEntries(pool: Pool, vaddr: nat, vend: nat) returns (panicked: bool, k: nat, paddr: nat)
      requires Inv(dir, pool.free) && pool.Valid() && vaddr < SPACE && vend < SPACE
      modifies this`dir, pool`free
      ensures pool.Valid() && pool.free == old(pool.free)
      ensures panicked <==> UnmapPanics(old(dir), vaddr, vend)
      ensures !panicked && vaddr >= vend ==> k == 0 && paddr == 0 && dir == old(dir)
      ensures !panicked && vaddr < vend ==>
                && k == 1 && paddr == PteAddr(Pte(old(dir), vaddr / PAGE_SIZE))
                && dir == SetPte(old(dir), vaddr / PAGE_SIZE, 0)
    {
      ghost var v0 := vaddr / PAGE_SIZE;
      k, paddr := 0, 0;
      var vcur, pcur := vaddr, 0;
      while vcur < vend
        invariant k <= 1 && pool.Valid() && pool.free == old(pool.free) && vcur < SPACE
        invariant WellFormed(dir) && FramesOk(dir, pool.free)
        invariant k == 0 ==> dir == old(dir) && paddr == 0 && vcur == vaddr
        invariant k == 1 ==> vaddr < vend && vcur == Wrap(vaddr + PAGE_SIZE)
        invariant k == 1 ==> old(dir)[v0 / ENTRIES].Some? && dir == SetPte(old(dir), v0, 0)
        invariant k == 1 ==> paddr == PteAddr(Pte(old(dir), v0)) && pcur == paddr + PAGE_SIZE
        decreases 2 - k
      {
        var v := vcur / PAGE_SIZE;
        var rc := GetPageDesc(pool, v, false);
        if rc < 0 { return true, k, paddr; }
        if k == 0 {
          pcur := PteAddr(Pte(dir, v));
          paddr := pcur;
        } else {
          NextNeverMatches(old(dir), v0, v);
          if Pte(dir, v) != pcur { break; }
        }
        dir := SetPte(dir, v, 0);
        vcur := Wrap(vcur + PAGE_SIZE);
        k := k + 1;
        pcur := pcur + PAGE_SIZE;
      }
      panicked := false;
    }
  }

  predicate PagesOnly(vaddr: nat, paddr: nat, size: nat)
  {
    paddr % PAGE_SIZE == 0 && size % PAGE_SIZE == 0 && vaddr % PAGE_SIZE == 0
  }

  /** The first pass over the whole range has done all of it. */
  lemma AllPrepared(base: Directory, dir: Directory, v0: nat, n: nat)
    requires WellFormed(base) && v0 + n <= PAGES && Prepared(base, dir, v0, n)
    ensures RangeFree(base, v0, n)
  {
  }

  /** The rollback reads through an absent leaf exactly if the first page fails in the way described. */
  lemma PrepareFaults(base: Directory, free: set<nat>, dir: Directory, free': set<nat>, v0: nat, n: nat, k: nat,
                      rc: int)
    requires Inv(base, free) && v0 < PAGES && v0 + n <= PAGES && k <= n && Prepared(base, dir, v0, k)
    requires |free'| + |Missing(base, v0, k)| == |free| && (rc == 0 <==> k == n)
    requires rc != 0 ==> StopsFor(rc, base, free, v0, n, k)
    ensures MapFaults(base, free, v0, n) <==> rc != 0 && ScanFaults(dir, v0, k)
  {
    RollbackFaultsIff(base, dir, v0, k);
    if k > 0 {
      assert v0 !in Flat(base);
      assert base[v0 / ENTRIES].None? ==> v0 / ENTRIES in Missing(base, v0, k);
    }
  }

  /** Some page of [vaddr, vend) that the loop gets to has no leaf. */
  ghost predicate UnmapPanics(dir: Directory, vaddr: nat, vend: nat)
    requires WellFormed(dir) && vaddr < SPACE
  {
    var next := Wrap(vaddr + PAGE_SIZE);
    && vaddr < vend
    && (dir[vaddr / PAGE_SIZE / ENTRIES].None? || (next < vend && dir[next / PAGE_SIZE / ENTRIES].None?))
  }

  /** No entry equals the page-aligned address that the second round looks for. */
  lemma NextNeverMatches(dir: Directory, v: nat, u: nat)
    requires WellFormed(dir) && Flagged(dir) && v < PAGES && u < PAGES && dir[v / ENTRIES].Some?
    ensures WellFormed(SetPte(dir, v, 0)) && Pte(SetPte(dir, v, 0), u) != PteAddr(Pte(dir, v)) + PAGE_SIZE
  {
    SetPteAt(dir, v, 0, u);
  }

  /** A table without all-zero leaves has nothing to prune. */
  lemma NothingPruned(dir: Directory, after: Directory, free': set<nat>, free: set<nat>, v0: nat)
    requires Inv(dir, free) && Pruned(dir, after, v0 / ENTRIES, LastSlot(v0, 0)) && Conserved(dir, free, after, free')
    ensures after == dir && free' == free
  {
    assert after == dir;
    FreeRestored(dir, free, free');
  }

  lemma UnmapFacts(base: Directory, v: nat)
    requires WellFormed(base) && v < PAGES && base[v / ENTRIES].Some?
    ensures WellFormed(SetPte(base, v, 0)) && Flat(SetPte(base, v, 0)) == Flat(base) - {v}
    ensures LeafFrames(SetPte(base, v, 0)) == LeafFrames(base)
  {
    SetPteFlat(base, v, 0);
    SameFrames(base, SetPte(base, v, 0));
  }

  lemma UnmapDone(base: Directory, mid: Directory, dir: Directory, v: nat)
    requires WellFormed(base) && Flagged(base) && NoZeroLeaf(base) && v < PAGES && base[v / ENTRIES].Some?
    requires mid == SetPte(base, v, 0) && Pruned(mid, dir, v / ENTRIES, v / ENTRIES)
    ensures WellFormed(dir) && Flagged(dir) && NoZeroLeaf(dir) && Keeps(dir, base)
    ensures Flat(dir) == Flat(base) - {v}
  {
    SetPteFlat(base, v, 0);
    PruneFlat(mid, dir, v / ENTRIES, v / ENTRIES);
    FlatFlagged(base);
    FlatFlagged(dir);
    forall i | 0 <= i < ENTRIES && dir[i].Some?
      ensures !ZeroLeaf(dir[i].value)
    {
    }
  }

  /** The physical address behind a user address, if the page has a leaf table. */
  function Translate(dir: Directory, uaddr: nat): Option<nat>
    requires WellFormed(dir) && uaddr < SPACE
  {
    if dir[uaddr / PAGE_SIZE / ENTRIES].None? then None
    else Some(PteAddr(Pte(dir, uaddr / PAGE_SIZE)) + uaddr % PAGE_SIZE)
  }
}
