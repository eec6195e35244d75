/**
  The physical page allocator: first fit from a free list, with a running total of
  the free bytes, and an aligned allocator that over-allocates and trims.
*/
module PageAllocator {
  import opened Common
  import opened FreeList

  datatype Pool = Pool(blocks: seq<Block>, freeSize: nat)

  ghost predicate Inv(p: Pool)
  {
    Canonical(p.blocks) && PageAligned(p.blocks) && p.freeSize == Total(p.blocks)
  }

  ghost function AllocResult(p: Pool, size: nat): (Option<nat>, Pool)
  {
    var k := First(p.blocks, Room(size), 0);
    if size % PAGE_SIZE != 0 || size > p.freeSize || k == |p.blocks| then (None, p)
    else (Some(p.blocks[k].addr), Pool(Cut(p.blocks, k, size), p.freeSize - size))
  }

  ghost function FreeResult(p: Pool, addr: nat, size: nat): Pool
  {
    if size % PAGE_SIZE != 0 then p else Pool(Freed(p.blocks, addr, size), p.freeSize + size)
  }

  /** `a` is the start of the first block that can hold `size` bytes. */
  ghost predicate IsFirstFit(blocks: seq<Block>, size: nat, a: nat)
  {
    && (exists i | 0 <= i < |blocks| :: blocks[i].addr == a && blocks[i].size >= size)
    && (forall i | 0 <= i < |blocks| && blocks[i].addr < a :: blocks[i].size < size)
  }

  /** A whole number of pages for which some block is large enough. */
  ghost predicate Fits(blocks: seq<Block>, size: nat)
  {
    size % PAGE_SIZE == 0 && exists i | 0 <= i < |blocks| :: blocks[i].size >= size
  }

  /** The range lies in the first `bufSize` bytes of the first block that can hold that many. */
  ghost predicate InFirstFit(blocks: seq<Block>, bufSize: nat, addr: nat, size: nat)
  {
    exists buf: nat :: IsFirstFit(blocks, bufSize, buf) && Range(addr, size) <= Range(buf, bufSize)
  }

  lemma CutAligned(blocks: seq<Block>, k: nat, size: nat)
    requires PageAligned(blocks) && k < |blocks| && size <= blocks[k].size && size % PAGE_SIZE == 0
    ensures PageAligned(Cut(blocks, k, size))
  {
  }

  lemma MergeAligned(blocks: seq<Block>, k: nat, b: Block)
    requires PageAligned(blocks) && k <= |blocks| && b.addr % PAGE_SIZE == 0 && b.size % PAGE_SIZE == 0
    ensures PageAligned(Merge(blocks, k, b))
  {
    RightAligned(b, blocks[k..]);
    LeftAligned(blocks[..k], MergeRight(b, blocks[k..]));
  }

  lemma RightAligned(b: Block, after: seq<Block>)
    requires PageAligned(after) && b.addr % PAGE_SIZE == 0 && b.size % PAGE_SIZE == 0
    ensures PageAligned(MergeRight(b, after))
  {
    if after != [] { SumOfPages(b.size, after[0].size); }
  }

  lemma LeftAligned(before: seq<Block>, after: seq<Block>)
    requires PageAligned(before) && PageAligned(after) && after != []
    ensures PageAligned(MergeLeft(before, after))
  {
    if before != [] { SumOfPages(before[|before| - 1].size, after[0].size); }
  }

  /** A failed allocation changes nothing, and a real request fails only when no block fits. */
  lemma AllocFails(p: Pool, size: nat)
    requires Inv(p)
    ensures AllocResult(p, size).0.None? ==> AllocResult(p, size).1 == p
    ensures AllocResult(p, size).0.Some? <==> Fits(p.blocks, size)
  {
    var k := First(p.blocks, Room(size), 0);
    if k < |p.blocks| { BlockWithinTotal(p.blocks, k); }
  }

  /** A successful allocation takes exactly its range, from the front of the first block that fits. */
  lemma AllocSucceeds(p: Pool, size: nat)
    requires Inv(p)
    ensures Inv(AllocResult(p, size).1)
    ensures AllocResult(p, size).0.Some? ==>
              var a, q := AllocResult(p, size).0.value, AllocResult(p, size).1;
              && a % PAGE_SIZE == 0
              && IsFirstFit(p.blocks, size, a)
              && Range(a, size) <= FreeBytes(p.blocks)
              && FreeBytes(q.blocks) == FreeBytes(p.blocks) - Range(a, size)
              && q.freeSize == p.freeSize - size
  {
    var k := First(p.blocks, Room(size), 0);
    if AllocResult(p, size).0.Some? {
      CutExact(p.blocks, k, size);
      CutAligned(p.blocks, k, size);
      CanonicalAllOrdered(p.blocks);
    }
  }

  lemma RangeDisjoint(blocks: seq<Block>, addr: nat, size: nat)
    requires FreeBytes(blocks) !! Range(addr, size)
    ensures Disjoint(blocks, addr, size)
  {
    forall a | InRange(a, addr, size)
      ensures !Covers(blocks, a)
    {
      assert a in Range(addr, size);
    }
  }

  /** Freeing a page range that is not free adds exactly that range. */
  lemma FreeAdds(p: Pool, addr: nat, size: nat)
    requires Inv(p) && size > 0 && size % PAGE_SIZE == 0 && addr % PAGE_SIZE == 0
    requires FreeBytes(p.blocks) !! Range(addr, size)
    ensures Inv(FreeResult(p, addr, size))
    ensures FreeBytes(FreeResult(p, addr, size).blocks) == FreeBytes(p.blocks) + Range(addr, size)
  {
    RangeDisjoint(p.blocks, addr, size);
    FreedExact(p.blocks, addr, size);
    MergeAligned(p.blocks, First(p.blocks, From(addr), 0), Block(addr, size));
  }

  /** A size that is no whole number of pages is ignored: list, free bytes and total are as before. */
  lemma FreeIgnored(p: Pool, addr: nat, size: nat)
    requires size % PAGE_SIZE != 0
    ensures FreeResult(p, addr, size).blocks == p.blocks && FreeResult(p, addr, size).freeSize == p.freeSize
  {
  }

  /** Freeing what was just allocated restores the pool, block for block. */
  lemma FreeUndoesAlloc(p: Pool, size: nat)
    requires Inv(p) && size > 0 && AllocResult(p, size).0.Some?
    ensures FreeResult(AllocResult(p, size).1, AllocResult(p, size).0.value, size) == p
  {
    FreeUndoesCut(p.blocks, First(p.blocks, Room(size), 0), size);
  }

  ghost predicate AtEdge(blocks: seq<Block>, addr: nat)
  {
    exists i | 0 <= i < |blocks| :: blocks[i].addr == addr || blocks[i].End() == addr
  }

  /**
    The code does not refuse an empty range. Freeing one leaves the list in
    canonical form exactly when the address is an edge of a free block; otherwise
    an empty block is left behind.
  */
  lemma FreeCanonicalIff(p: Pool, addr: nat, size: nat)
    requires Inv(p) && size % PAGE_SIZE == 0 && FreeBytes(p.blocks) !! Range(addr, size)
    ensures Canonical(FreeResult(p, addr, size).blocks) <==> size > 0 || AtEdge(p.blocks, addr)
  {
    RangeDisjoint(p.blocks, addr, size);
    FreedCanonicalIff(p.blocks, addr, size);
  }

  lemma FreedCanonicalIff(blocks: seq<Block>, addr: nat, size: nat)
    requires Canonical(blocks) && Disjoint(blocks, addr, size)
    ensures Canonical(Freed(blocks, addr, size)) <==> size > 0 || AtEdge(blocks, addr)
  {
    if size > 0 {
      FreedExact(blocks, addr, size);
    } else {
      EdgeAtPosition(blocks, addr, First(blocks, From(addr), 0));
      EmptyMerge(blocks, addr, First(blocks, From(addr), 0));
    }
  }

  lemma EdgeAtPosition(blocks: seq<Block>, addr: nat, k: nat)
    requires Canonical(blocks) && k == First(blocks, From(addr), 0)
    ensures AtEdge(blocks, addr) <==>
              (k < |blocks| && blocks[k].addr == addr) || (k > 0 && blocks[k - 1].End() == addr)
  {
    CanonicalAllOrdered(blocks);
  }

  lemma EmptyMerge(blocks: seq<Block>, addr: nat, k: nat)
    requires Canonical(blocks) && k <= |blocks|
    ensures Canonical(Merge(blocks, k, Block(addr, 0))) <==>
              (k < |blocks| && blocks[k].addr == addr) || (k > 0 && blocks[k - 1].End() == addr)
  {
    var b := Block(addr, 0);
    if k < |blocks| && blocks[k].addr == addr {
      assert MergeRight(b, blocks[k..]) == blocks[k..];
      assert Merge(blocks, k, b) == blocks;
    } else if k > 0 && blocks[k - 1].End() == addr {
      assert Merge(blocks, k, b) == blocks;
    } else {
      assert Merge(blocks, k, b)[k] == b;
    }
  }

  // ----- runs

  datatype Op = AllocOp(size: nat) | FreeOp(addr: nat, size: nat)

  /** The pool together with the bytes handed out and not yet returned. */
  datatype Machine = Machine(pool: Pool, owned: iset<int>)

  /** Callers return only whole pages that they own, or sizes that are no whole number of pages. */
  ghost predicate Allowed(m: Machine, op: Op)
  {
    op.FreeOp? && op.size % PAGE_SIZE == 0 ==>
      op.size > 0 && op.addr % PAGE_SIZE == 0 && Range(op.addr, op.size) <= m.owned
  }

  ghost function Apply(m: Machine, op: Op): Machine
  {
    match op
    case AllocOp(size) =>
      var (r, q) := AllocResult(m.pool, size);
      Machine(q, if r.Some? then m.owned + Range(r.value, size) else m.owned)
    case FreeOp(addr, size) =>
      Machine(FreeResult(m.pool, addr, size), if size % PAGE_SIZE == 0 then m.owned - Range(addr, size) else m.owned)
  }

  ghost predicate AllowedRun(m: Machine, ops: seq<Op>)
    decreases |ops|
  {
    ops == [] || (Allowed(m, ops[0]) && AllowedRun(Apply(m, ops[0]), ops[1..]))
  }

  ghost function Run(m: Machine, ops: seq<Op>): Machine
    decreases |ops|
  {
    if ops == [] then m else Run(Apply(m, ops[0]), ops[1..])
  }

  ghost predicate MachineInv(m: Machine)
  {
    Inv(m.pool) && FreeBytes(m.pool.blocks) !! m.owned
  }

  lemma ApplyConserves(m: Machine, op: Op)
    requires MachineInv(m) && Allowed(m, op)
    ensures MachineInv(Apply(m, op))
    ensures FreeBytes(Apply(m, op).pool.blocks) + Apply(m, op).owned == FreeBytes(m.pool.blocks) + m.owned
  {
    match op
    case AllocOp(size) =>
      AllocSucceeds(m.pool, size);
      AllocFails(m.pool, size);
      var r := AllocResult(m.pool, size).0;
      if r.Some? { TakeSets(FreeBytes(m.pool.blocks), m.owned, Range(r.value, size)); }
    case FreeOp(addr, size) =>
      if size % PAGE_SIZE == 0 {
        FreeAdds(m.pool, addr, size);
        TakeSets(m.owned, FreeBytes(m.pool.blocks), Range(addr, size));
      } else {
        FreeIgnored(m.pool, addr, size);
      }
  }

  /** Moving a part of one set to a disjoint one. */
  lemma TakeSets(from: iset<int>, to: iset<int>, part: iset<int>)
    requires from !! to && part <= from
    ensures (from - part) !! (to + part) && (from - part) + (to + part) == from + to
  {
  }

  /**
    Over every run of allocations and valid frees the list stays canonical and
    page aligned, the running total stays the sum of the blocks, and no byte is
    lost, duplicated or both free and owned.
  */
  lemma {:induction false} RunConserves(m: Machine, ops: seq<Op>)
    requires MachineInv(m) && AllowedRun(m, ops)
    ensures MachineInv(Run(m, ops))
    ensures FreeBytes(Run(m, ops).pool.blocks) + Run(m, ops).owned == FreeBytes(m.pool.blocks) + m.owned
    decreases |ops|
  {
    if ops != [] {
      ApplyConserves(m, ops[0]);
      RunConserves(Apply(m, ops[0]), ops[1..]);
    }
  }

  /** The free list is a function of the free set: two runs that agree on it agree on the list. */
  lemma RunsAgree(m: Machine, n: Machine, ops: seq<Op>, others: seq<Op>)
    requires MachineInv(m) && AllowedRun(m, ops) && MachineInv(n) && AllowedRun(n, others)
    requires FreeBytes(Run(m, ops).pool.blocks) == FreeBytes(Run(n, others).pool.blocks)
    ensures Run(m, ops).pool == Run(n, others).pool
  {
    RunConserves(m, ops);
    RunConserves(n, others);
    CanonicalUnique(Run(m, ops).pool.blocks, Run(n, others).pool.blocks);
  }

  // ----- single pages

  /** The free page frames. */
  ghost function Frames(p: Pool): iset<int>
  {
    iset f | f % PAGE_SIZE == 0 && Covers(p.blocks, f)
  }

  /** A single-page request takes one free frame, and fails only when there is none. */
  lemma PageAllocTakesFrame(p: Pool)
    requires Inv(p)
    ensures Inv(AllocResult(p, PAGE_SIZE).1)
    ensures AllocResult(p, PAGE_SIZE).0.None? <==> Frames(p) == iset{}
    ensures AllocResult(p, PAGE_SIZE).0.Some? ==>
              var f := AllocResult(p, PAGE_SIZE).0.value;
              f in Frames(p) && Frames(AllocResult(p, PAGE_SIZE).1) == Frames(p) - iset{f}
  {
    AllocFails(p, PAGE_SIZE);
    AllocSucceeds(p, PAGE_SIZE);
    SomeFrameIffFits(p);
    var (r, q) := AllocResult(p, PAGE_SIZE);
    if r.Some? {
      assert r.value in Range(r.value, PAGE_SIZE);
      OneFrame(r.value);
      FramesAreFreeBytes(p);
      FramesAreFreeBytes(q);
    }
  }

  lemma SomeFrameIffFits(p: Pool)
    requires Inv(p)
    ensures Frames(p) != iset{} <==> Fits(p.blocks, PAGE_SIZE)
  {
    if p.blocks != [] {
      var b := p.blocks[0];
      assert b.size >= PAGE_SIZE;
      assert b.addr <= b.addr < b.End();
      assert b.addr in Frames(p);
    }
  }

  lemma FramesAreFreeBytes(p: Pool)
    ensures forall f :: f in Frames(p) <==> f % PAGE_SIZE == 0 && f in FreeBytes(p.blocks)
  {
  }

  lemma OneFrame(f: int)
    requires f % PAGE_SIZE == 0
    ensures forall g :: g in Range(f, PAGE_SIZE) && g % PAGE_SIZE == 0 <==> g == f
  {
  }

  /** Returning a frame that is not free adds exactly that frame. */
  lemma PageFreeAddsFrame(p: Pool, f: nat)
    requires Inv(p) && f % PAGE_SIZE == 0 && FreeBytes(p.blocks) !! Range(f, PAGE_SIZE)
    ensures Inv(FreeResult(p, f, PAGE_SIZE))
    ensures Frames(FreeResult(p, f, PAGE_SIZE)) == Frames(p) + iset{f}
  {
    FreeAdds(p, f, PAGE_SIZE);
    OneFrame(f);
    FramesAreFreeBytes(p);
    FramesAreFreeBytes(FreeResult(p, f, PAGE_SIZE));
  }

  // ----- the allocator itself

  /** Rounding a page-aligned address up to a page-multiple alignment adds at most a - PAGE_SIZE. */
  lemma AlignAbovePages(x: nat, a: nat)
    requires PowerOfTwo(a) && a % PAGE_SIZE == 0 && x % PAGE_SIZE == 0
    ensures AlignAbove(x, a) % a == 0 && AlignAbove(x, a) % PAGE_SIZE == 0
    ensures x <= AlignAbove(x, a) <= x + a - PAGE_SIZE
  {
    AlignAboveRounds(x, a);
    RoundedPages(AlignAbove(x, a), x, a);
  }

  lemma RoundedPages(r: nat, x: nat, a: nat)
    requires a > 0 && r % a == 0 && a % PAGE_SIZE == 0 && x % PAGE_SIZE == 0 && x <= r < x + a
    ensures r % PAGE_SIZE == 0 && r <= x + a - PAGE_SIZE
  {
    PageMultiple(r, a);
    SumOfPages(x, a);
    PagesBelow(r, x + a);
  }

  lemma PageMultiple(r: nat, a: nat)
    requires a > 0 && r % a == 0 && a % PAGE_SIZE == 0
    ensures r % PAGE_SIZE == 0
  {
    var k := a / PAGE_SIZE;
    assert r == r / a * a && a == k * PAGE_SIZE;
    assert r == (r / a * k) * PAGE_SIZE;
    MultipleMod(r / a * k, PAGE_SIZE);
  }

  lemma PagesBelow(r: nat, end: nat)
    requires r % PAGE_SIZE == 0 && end % PAGE_SIZE == 0 && r < end
    ensures r <= end - PAGE_SIZE
  {
  }

  function Join(a: Block, b: Block): Block { Block(a.addr, a.size + b.size) }

  predicate Touches(a: Block, b: Block) { a.End() == b.addr }

  /** Join block a with the next one if they touch. */
  function JoinAt(blocks: seq<Block>, a: nat): seq<Block>
    requires a < |blocks|
  {
    if a + 1 < |blocks| && Touches(blocks[a], blocks[a + 1]) then
      blocks[..a] + [Join(blocks[a], blocks[a + 1])] + blocks[a + 2..]
    else blocks
  }

  lemma JoinRight(x: seq<Block>, m: Block, y: seq<Block>)
    ensures JoinAt(x + [m] + y, |x|) ==
              if y != [] && Touches(m, y[0]) then x + [Join(m, y[0])] + y[1..] else x + [m] + y
  {
  }

  lemma JoinLeft(x: seq<Block>, b: Block, y: seq<Block>)
    requires x != []
    ensures JoinAt(x + [b] + y, |x| - 1) ==
              if Touches(x[|x| - 1], b) then x[..|x| - 1] + [Join(x[|x| - 1], b)] + y else x + [b] + y
  {
  }

  /** Joining to the left and then to the right is what merging means. */
  lemma JoinsMerge(x: seq<Block>, b: Block, y: seq<Block>)
    ensures var left := x != [] && Touches(x[|x| - 1], b);
            var x', m := if left then x[..|x| - 1] else x, if left then Join(x[|x| - 1], b) else b;
            MergeLeft(x, MergeRight(b, y)) ==
              if y != [] && Touches(m, y[0]) then x' + [Join(m, y[0])] + y[1..] else x' + [m] + y
  {
    var after := MergeRight(b, y);
    if y != [] && Touches(b, y[0]) {
      assert after[1..] == y[1..];
      assert x + after == x + [after[0]] + y[1..];
    } else {
      assert after[1..] == y;
      assert x + after == x + [b] + y;
    }
  }

  lemma LinkedIsMerge(blocks: seq<Block>, i: nat, b: Block)
    requires i <= |blocks|
    ensures var inserted := blocks[..i] + [b] + blocks[i..];
            var joined := if i > 0 then JoinAt(inserted, i - 1) else inserted;
            var a := if i > 0 && Touches(blocks[i - 1], b) then i - 1 else i;
            a < |joined| && JoinAt(joined, a) == Merge(blocks, i, b)
  {
    var x, y := blocks[..i], blocks[i..];
    if i > 0 { JoinLeft(x, b, y); }
    if i > 0 && Touches(blocks[i - 1], b) {
      JoinRight(x[..i - 1], Join(x[i - 1], b), y);
    } else {
      JoinRight(x, b, y);
    }
    JoinsMerge(x, b, y);
  }

  lemma NoBytes(all: iset<int>, from: nat)
    ensures all + Range(from, 0) == all
  {
  }

  /** Giving back both ends of an allocated buffer leaves exactly the middle allocated. */
  lemma TrimSets(all: iset<int>, start: nat, at: nat, back: nat, end: nat)
    requires start <= at <= back <= end && Range(start, end - start) <= all
    ensures var free := all - Range(start, end - start);
            && free !! Range(start, at - start)
            && (free + Range(start, at - start)) !! Range(back, end - back)
            && free + Range(start, at - start) + Range(back, end - back) == all - Range(at, back - at)
            && Range(at, back - at) <= Range(start, end - start)
  {
  }

  lemma SumOfPages(x: nat, y: nat)
    requires x % PAGE_SIZE == 0 && y % PAGE_SIZE == 0
    ensures (x + y) % PAGE_SIZE == 0
  {
  }

  lemma OverSize(size: nat, align: nat)
    requires align > 0 && align % PAGE_SIZE == 0
    ensures align >= PAGE_SIZE
    ensures (size + align - PAGE_SIZE) % PAGE_SIZE == 0 ==> size % PAGE_SIZE == 0
  {
  }

  class Allocator {
    var blocks: seq<Block>
    var freeSize: nat

    ghost function View(): Pool
      reads this
    {
      Pool(blocks, freeSize)
    }

    constructor ()
      ensures View() == Pool([], 0) && Inv(View())
    {
      blocks, freeSize := [], 0;
    }

    method Alloc(size: nat) returns (r: Option<nat>)
      modifies this
      ensures (r, View()) == AllocResult(old(View()), size)
    {
      if size % PAGE_SIZE != 0 { return None; }
      if size > freeSize { return None; }
      var i := 0;
      while i < |blocks| && blocks[i].size < size
        invariant i <= |blocks| && unchanged(this)
        invariant First(blocks, Room(size), 0) == First(blocks, Room(size), i)
      {
        i := i + 1;
      }
      if i == |blocks| { return None; }
      r := Some(blocks[i].addr);
      var shrunk := Block(blocks[i].addr + size, blocks[i].size - size);
      blocks := blocks[i := shrunk];
      if blocks[i].size == 0 {
        blocks := blocks[..i] + blocks[i + 1..];
      }
      assert blocks == Cut(old(blocks), i, size);
      freeSize := freeSize - size;
    }

    /** Insert b before block i, then join it with the block before and the block after. */
    method Link(i: nat, b: Block)
      requires i <= |blocks|
      modifies this`blocks
      ensures blocks == Merge(old(blocks), i, b)
    {
      LinkedIsMerge(blocks, i, b);
      blocks := blocks[..i] + [b] + blocks[i..];
      var a := i;
      if i > 0 {
        var joined := JoinNext(i - 1);
        if joined { a := i - 1; }
      }
      var _ := JoinNext(a);
    }

    method JoinNext(a: nat) returns (joined: bool)
      requires a < |blocks|
      modifies this`blocks
      ensures joined == (a + 1 < |old(blocks)| && Touches(old(blocks)[a], old(blocks)[a + 1]))
      ensures blocks == JoinAt(old(blocks), a)
    {
      joined := a + 1 < |blocks| && blocks[a].End() == blocks[a + 1].addr;
      if joined {
        blocks := blocks[..a] + [Block(blocks[a].addr, blocks[a].size + blocks[a + 1].size)] + blocks[a + 2..];
      }
    }

    method Free(addr: nat, size: nat)
      modifies this
      ensures View() == FreeResult(old(View()), addr, size)
      ensures size % PAGE_SIZE != 0 ==> blocks == old(blocks) && freeSize == old(freeSize)
    {
      if size % PAGE_SIZE != 0 { return; }
      var i := 0;
      while i < |blocks| && blocks[i].addr < addr
        invariant i <= |blocks| && unchanged(this)
        invariant First(blocks, From(addr), 0) == First(blocks, From(addr), i)
      {
        i := i + 1;
      }
      Link(i, Block(addr, size));
      freeSize := freeSize + size;
    }

    /** Free, as its callers see it. */
    method FreePages(addr: nat, size: nat)
      requires Inv(View()) && size > 0 && size % PAGE_SIZE == 0 && addr % PAGE_SIZE == 0
      requires FreeBytes(blocks) !! Range(addr, size)
      modifies this
      ensures Inv(View()) && FreeBytes(blocks) == old(FreeBytes(blocks)) + Range(addr, size)
    {
      ghost var p := View();
      FreeAdds(p, addr, size);
      Free(addr, size);
      assert blocks == FreeResult(p, addr, size).blocks;
    }

    /** Give back the pages from `from` up to `to`, if there are any. */
    method Trim(from: nat, to: nat)
      requires Inv(View()) && from <= to && from % PAGE_SIZE == 0 && to % PAGE_SIZE == 0
      requires FreeBytes(blocks) !! Range(from, to - from)
      modifies this
      ensures Inv(View()) && FreeBytes(blocks) == old(FreeBytes(blocks)) + Range(from, to - from)
    {
      if from < to {
        FreePages(from, to - from);
      } else {
        NoBytes(FreeBytes(blocks), from);
      }
    }

    /** Of an allocated buffer, keep `size` bytes from `at` and return what lies on either side. */
    method KeepMiddle(start: nat, bufSize: nat, at: nat, size: nat, ghost all: iset<int>)
      requires Inv(View()) && start <= at && at + size <= start + bufSize
      requires start % PAGE_SIZE == 0 && at % PAGE_SIZE == 0
      requires (at + size) % PAGE_SIZE == 0 && (start + bufSize) % PAGE_SIZE == 0
      requires Range(start, bufSize) <= all && FreeBytes(blocks) == all - Range(start, bufSize)
      modifies this
      ensures Inv(View()) && FreeBytes(blocks) == all - Range(at, size)
      ensures Range(at, size) <= Range(start, bufSize)
    {
      var back, end := at + size, start + bufSize;
      TrimSets(all, start, at, back, end);
      Trim(start, at);
      Trim(back, end);
    }

    /** Alloc, as its callers see it. */
    method AllocPages(size: nat) returns (r: Option<nat>)
      requires Inv(View())
      modifies this
      ensures Inv(View())
      ensures r.Some? <==> Fits(old(blocks), size)
      ensures r.None? ==> View() == old(View())
      ensures r.Some? ==>
                && r.value % PAGE_SIZE == 0
                && IsFirstFit(old(blocks), size, r.value)
                && Range(r.value, size) <= old(FreeBytes(blocks))
                && FreeBytes(blocks) == old(FreeBytes(blocks)) - Range(r.value, size)
    {
      AllocFails(View(), size);
      AllocSucceeds(View(), size);
      r := Alloc(size);
    }

    /** Over-allocate by align - PAGE_SIZE, keep the aligned part, return both trims. */
    method AllocAligned(size: nat, align: nat) returns (r: Option<nat>)
      requires Inv(View()) && PowerOfTwo(align) && align % PAGE_SIZE == 0
      modifies this
      ensures Inv(View())
      ensures r.Some? <==> Fits(old(blocks), size + align - PAGE_SIZE)
      ensures r.None? ==> View() == old(View())
      ensures r.Some? ==>
                && r.value % align == 0
                && InFirstFit(old(blocks), size + align - PAGE_SIZE, r.value, size)
                && Range(r.value, size) <= old(FreeBytes(blocks))
                && FreeBytes(blocks) == old(FreeBytes(blocks)) - Range(r.value, size)
    {
      var bufSize := size + align - PAGE_SIZE;
      ghost var all := FreeBytes(blocks);
      var buf := AllocPages(bufSize);
      if buf.None? { return None; }
      var start := buf.value;
      AlignAbovePages(start, align);
      var at := AlignAbove(start, align);
      r := Some(at);
      OverSize(size, align);
      SumOfPages(at, size);
      SumOfPages(start, bufSize);
      KeepMiddle(start, bufSize, at, size, all);
    }
  }
}
