/**
  The free list of the physical page allocator: blocks sorted by address and
  maximally coalesced. One call of the allocator cuts the front off a block or
  inserts a block and merges it with the neighbours it touches.
*/
module FreeList {
  import opened Common

  datatype Block = Block(addr: nat, size: nat) {
    function End(): nat { addr + size }
  }

  ghost predicate Covers(blocks: seq<Block>, a: int)
  {
    exists i | 0 <= i < |blocks| :: blocks[i].addr <= a < blocks[i].End()
  }

  ghost function FreeBytes(blocks: seq<Block>): iset<int>
  {
    iset a | Covers(blocks, a)
  }

  ghost predicate InRange(a: int, addr: int, size: int) { addr <= a < addr + size }

  ghost function Range(addr: int, size: int): iset<int>
  {
    iset a | InRange(a, addr, size)
  }

  /** Sorted, non-empty blocks with a gap between neighbours. */
  ghost predicate Canonical(blocks: seq<Block>)
  {
    && (forall i | 0 <= i < |blocks| :: blocks[i].size > 0)
    && (forall i, j | 0 <= i < j < |blocks| && j == i + 1 :: blocks[i].End() < blocks[j].addr)
  }

  ghost predicate PageAligned(blocks: seq<Block>)
  {
    forall i | 0 <= i < |blocks| :: blocks[i].addr % PAGE_SIZE == 0 && blocks[i].size % PAGE_SIZE == 0
  }

  ghost function Total(blocks: seq<Block>): nat
  {
    if blocks == [] then 0 else blocks[0].size + Total(blocks[1..])
  }

  // ----- what one call does, as functions on the list

  /** What a walk of the list looks for: room for some bytes, or the place for an address. */
  datatype Want = Room(size: nat) | From(addr: nat)

  predicate Meets(b: Block, w: Want)
  {
    match w
    case Room(size) => b.size >= size
    case From(addr) => b.addr >= addr
  }

  /** The first block at or after position i that meets the want, or the list length. */
  ghost function First(blocks: seq<Block>, w: Want, i: nat): (r: nat)
    requires i <= |blocks|
    ensures i <= r <= |blocks|
    ensures forall j | i <= j < r :: !Meets(blocks[j], w)
    ensures r < |blocks| ==> Meets(blocks[r], w)
    decreases |blocks| - i
  {
    if i == |blocks| || Meets(blocks[i], w) then i else First(blocks, w, i + 1)
  }

  /** Cut `size` bytes off the front of block k, dropping the block if nothing remains. */
  function Cut(blocks: seq<Block>, k: nat, size: nat): seq<Block>
    requires k < |blocks| && size <= blocks[k].size
  {
    blocks[..k] + Rest(blocks[k], size) + blocks[k + 1..]
  }

  function Rest(b: Block, size: nat): seq<Block>
    requires size <= b.size
  {
    if b.size == size then [] else [Block(b.addr + size, b.size - size)]
  }

  /** Put b at position k, merging it with the neighbours it touches. */
  function Merge(blocks: seq<Block>, k: nat, b: Block): seq<Block>
    requires k <= |blocks|
  {
    MergeLeft(blocks[..k], MergeRight(b, blocks[k..]))
  }

  function MergeRight(b: Block, after: seq<Block>): (r: seq<Block>)
    ensures r != [] && r[0].addr == b.addr
  {
    if after != [] && b.End() == after[0].addr then [Block(b.addr, b.size + after[0].size)] + after[1..]
    else [b] + after
  }

  function MergeLeft(before: seq<Block>, after: seq<Block>): seq<Block>
    requires after != []
  {
    var n := |before|;
    if n > 0 && before[n - 1].End() == after[0].addr then
      before[..n - 1] + [Block(before[n - 1].addr, before[n - 1].size + after[0].size)] + after[1..]
    else before + after
  }

  ghost function Freed(blocks: seq<Block>, addr: nat, size: nat): seq<Block>
  {
    Merge(blocks, First(blocks, From(addr), 0), Block(addr, size))
  }

  // ----- the canonical form

  lemma {:induction false} TotalConcat(a: seq<Block>, b: seq<Block>)
    ensures Total(a + b) == Total(a) + Total(b)
  {
    if a == [] {
      assert a + b == b;
    } else {
      TotalConcat(a[1..], b);
      assert (a + b)[1..] == a[1..] + b;
    }
  }

  lemma TotalSplit(blocks: seq<Block>, k: nat)
    requires k <= |blocks|
    ensures Total(blocks) == Total(blocks[..k]) + Total(blocks[k..])
    ensures k < |blocks| ==> Total(blocks[k..]) == blocks[k].size + Total(blocks[k + 1..])
  {
    assert blocks == blocks[..k] + blocks[k..];
    TotalConcat(blocks[..k], blocks[k..]);
    if k < |blocks| { assert blocks[k..][1..] == blocks[k + 1..]; }
  }

  lemma CoversConcat(x: seq<Block>, y: seq<Block>, a: int)
    ensures Covers(x + y, a) <==> Covers(x, a) || Covers(y, a)
  {
    var z := x + y;
    if Covers(z, a) {
      var i :| 0 <= i < |z| && z[i].addr <= a < z[i].End();
      if i >= |x| { assert y[i - |x|] == z[i]; } else { assert x[i] == z[i]; }
    }
    if Covers(x, a) {
      var i :| 0 <= i < |x| && x[i].addr <= a < x[i].End();
      assert z[i] == x[i];
    }
    if Covers(y, a) {
      var i :| 0 <= i < |y| && y[i].addr <= a < y[i].End();
      assert z[|x| + i] == y[i];
    }
  }

  lemma CoversSplit(blocks: seq<Block>, k: nat, a: int)
    requires k <= |blocks|
    ensures Covers(blocks, a) <==> Covers(blocks[..k], a) || Covers(blocks[k..], a)
    ensures k < |blocks| ==>
              (Covers(blocks[k..], a) <==> blocks[k].addr <= a < blocks[k].End() || Covers(blocks[k + 1..], a))
  {
  }

  /** Nothing in y starts before the last block of x has ended. */
  ghost predicate Before(x: seq<Block>, y: seq<Block>)
  {
    x != [] && y != [] ==> x[|x| - 1].End() < y[0].addr
  }

  lemma CanonicalConcat(x: seq<Block>, y: seq<Block>)
    ensures Canonical(x + y) <==> Canonical(x) && Canonical(y) && Before(x, y)
  {
    var z := x + y;
    if Canonical(z) {
      assert forall i | 0 <= i < |x| :: x[i] == z[i];
      assert forall i | 0 <= i < |y| :: y[i] == z[|x| + i];
    }
  }

  lemma {:induction false} CanonicalOrdered(blocks: seq<Block>, i: nat, j: nat)
    requires Canonical(blocks) && i < j < |blocks|
    ensures blocks[i].End() < blocks[j].addr
    decreases j
  {
    if i < j - 1 { CanonicalOrdered(blocks, i, j - 1); }
  }

  lemma CanonicalAllOrdered(blocks: seq<Block>)
    requires Canonical(blocks)
    ensures forall i, j | 0 <= i < j < |blocks| :: blocks[i].End() < blocks[j].addr
  {
    forall i, j | 0 <= i < j < |blocks|
      ensures blocks[i].End() < blocks[j].addr
    {
      CanonicalOrdered(blocks, i, j);
    }
  }

  lemma FirstBlockEdges(x: seq<Block>)
    requires Canonical(x) && x != []
    ensures Covers(x, x[0].addr) && !Covers(x, x[0].End())
    ensures forall a | Covers(x, a) :: x[0].addr <= a
    ensures forall a | x[0].addr <= a < x[0].End() :: Covers(x, a)
    ensures forall a | Covers(x[1..], a) :: x[0].End() < a
  {
    CanonicalAllOrdered(x);
    assert x[0].addr <= x[0].addr < x[0].End();
  }

  lemma FirstBlockDetermined(x: seq<Block>, y: seq<Block>)
    requires Canonical(x) && Canonical(y) && x != [] && y != []
    requires forall a :: Covers(x, a) <==> Covers(y, a)
    ensures x[0] == y[0]
    ensures forall a :: Covers(x[1..], a) <==> Covers(y[1..], a)
  {
    FirstBlockEdges(x);
    FirstBlockEdges(y);
    forall a
      ensures Covers(x[1..], a) <==> Covers(y[1..], a)
    {
      CoversSplit(x, 0, a);
      CoversSplit(y, 0, a);
    }
  }

  lemma {:induction false} SameCoverSameList(x: seq<Block>, y: seq<Block>)
    requires Canonical(x) && Canonical(y)
    requires forall a :: Covers(x, a) <==> Covers(y, a)
    ensures x == y
  {
    if x == [] || y == [] {
      if x != [] { FirstBlockEdges(x); }
      if y != [] { FirstBlockEdges(y); }
    } else {
      FirstBlockDetermined(x, y);
      SameCoverSameList(x[1..], y[1..]);
      assert x == [x[0]] + x[1..] && y == [y[0]] + y[1..];
    }
  }

  /** There is only one canonical list for a set of free bytes. */
  lemma CanonicalUnique(x: seq<Block>, y: seq<Block>)
    requires Canonical(x) && Canonical(y)
    requires FreeBytes(x) == FreeBytes(y)
    ensures x == y
  {
    assert forall a :: Covers(x, a) <==> a in FreeBytes(x);
    assert forall a :: Covers(y, a) <==> a in FreeBytes(y);
    SameCoverSameList(x, y);
  }

  // ----- allocation

  lemma CutCovers(blocks: seq<Block>, k: nat, size: nat, a: int)
    requires Canonical(blocks) && k < |blocks| && size <= blocks[k].size
    ensures Covers(Cut(blocks, k, size), a) <==> Covers(blocks, a) && !InRange(a, blocks[k].addr, size)
  {
    var rest := Rest(blocks[k], size);
    CoversSplit(blocks, k, a);
    CoversConcat(blocks[..k] + rest, blocks[k + 1..], a);
    CoversConcat(blocks[..k], rest, a);
    assert Covers(rest, a) <==> InRange(a, blocks[k].addr + size, blocks[k].size - size) by {
      if InRange(a, blocks[k].addr + size, blocks[k].size - size) { assert rest[0].addr <= a < rest[0].End(); }
    }
    if InRange(a, blocks[k].addr, blocks[k].size) {
      CanonicalAllOrdered(blocks);
      assert !Covers(blocks[..k], a) && !Covers(blocks[k + 1..], a);
    }
  }

  lemma CutCanonical(blocks: seq<Block>, k: nat, size: nat)
    requires Canonical(blocks) && k < |blocks| && size <= blocks[k].size
    ensures Canonical(Cut(blocks, k, size))
  {
    var z, d := Cut(blocks, k, size), 1 - |Rest(blocks[k], size)|;
    CanonicalAllOrdered(blocks);
    forall i | 0 <= i < |z|
      ensures z[i].size > 0
      ensures i < k ==> z[i] == blocks[i]
      ensures i >= k ==> blocks[i + d].addr <= z[i].addr && z[i].End() <= blocks[i + d].End()
    {
    }
  }

  lemma CutTotal(blocks: seq<Block>, k: nat, size: nat)
    requires k < |blocks| && size <= blocks[k].size
    ensures Total(Cut(blocks, k, size)) == Total(blocks) - size
  {
    var rest := Rest(blocks[k], size);
    TotalSplit(blocks, k);
    TotalConcat(blocks[..k] + rest, blocks[k + 1..]);
    TotalConcat(blocks[..k], rest);
  }

  /** Cutting keeps the canonical form and takes exactly the cut range out of the free set. */
  lemma CutExact(blocks: seq<Block>, k: nat, size: nat)
    requires Canonical(blocks) && k < |blocks| && size <= blocks[k].size
    ensures Canonical(Cut(blocks, k, size))
    ensures FreeBytes(Cut(blocks, k, size)) == FreeBytes(blocks) - Range(blocks[k].addr, size)
    ensures Range(blocks[k].addr, size) <= FreeBytes(blocks)
    ensures Total(Cut(blocks, k, size)) == Total(blocks) - size
  {
    CutTotal(blocks, k, size);
    CutCanonical(blocks, k, size);
    forall a
      ensures a in FreeBytes(Cut(blocks, k, size)) <==> a in FreeBytes(blocks) && a !in Range(blocks[k].addr, size)
      ensures a in Range(blocks[k].addr, size) ==> a in FreeBytes(blocks)
    {
      CutCovers(blocks, k, size, a);
      CoversSplit(blocks, k, a);
    }
  }

  lemma BlockWithinTotal(blocks: seq<Block>, k: nat)
    requires k < |blocks|
    ensures blocks[k].size <= Total(blocks)
  {
    TotalSplit(blocks, k);
  }

  // ----- release

  ghost predicate Disjoint(blocks: seq<Block>, addr: nat, size: nat)
  {
    forall a | InRange(a, addr, size) :: !Covers(blocks, a)
  }

  /** A range disjoint from the free bytes lies strictly between two neighbours of the list. */
  lemma FitsBetween(blocks: seq<Block>, addr: nat, size: nat, k: nat)
    requires Canonical(blocks) && size > 0 && Disjoint(blocks, addr, size)
    requires k == First(blocks, From(addr), 0)
    ensures k > 0 ==> blocks[k - 1].End() <= addr
    ensures k < |blocks| ==> addr + size <= blocks[k].addr
  {
    if k > 0 && addr < blocks[k - 1].End() {
      assert InRange(addr, addr, size);
      assert Covers(blocks, addr);
    }
    if k < |blocks| && blocks[k].addr < addr + size {
      assert InRange(blocks[k].addr, addr, size);
      assert Covers(blocks, blocks[k].addr);
    }
  }

  lemma MergeRightFacts(b: Block, after: seq<Block>, a: int)
    requires b.size > 0
    ensures Total(MergeRight(b, after)) == b.size + Total(after)
    ensures Covers(MergeRight(b, after), a) <==> b.addr <= a < b.End() || Covers(after, a)
  {
  }

  lemma MergeRightCanonical(b: Block, after: seq<Block>)
    requires Canonical(after) && b.size > 0
    requires after != [] ==> b.End() <= after[0].addr
    ensures Canonical(MergeRight(b, after))
  {
  }

  lemma MergeLeftFacts(before: seq<Block>, after: seq<Block>, a: int)
    requires after != []
    ensures Total(MergeLeft(before, after)) == Total(before) + Total(after)
    ensures Covers(MergeLeft(before, after), a) <==> Covers(before, a) || Covers(after, a)
  {
    var n := |before|;
    if n > 0 && before[n - 1].End() == after[0].addr {
      var m := [Block(before[n - 1].addr, before[n - 1].size + after[0].size)] + after[1..];
      assert MergeLeft(before, after) == before[..n - 1] + m;
      assert m[1..] == after[1..];
      TotalConcat(before[..n - 1], m);
      TotalSplit(before, n - 1);
      CoversConcat(before[..n - 1], m, a);
      CoversSplit(m, 0, a);
      CoversSplit(after, 0, a);
      CoversSplit(before, n - 1, a);
      assert before[n..] == [];
    } else {
      TotalConcat(before, after);
      CoversConcat(before, after, a);
    }
  }

  lemma MergeLeftCanonical(before: seq<Block>, after: seq<Block>)
    requires Canonical(before) && Canonical(after) && after != []
    requires before != [] ==> before[|before| - 1].End() <= after[0].addr
    ensures Canonical(MergeLeft(before, after))
  {
    var n := |before|;
    if n > 0 && before[n - 1].End() == after[0].addr {
      JoinCanonical(before, after, MergeLeft(before, after));
    } else {
      CanonicalConcat(before, after);
    }
  }

  lemma JoinCanonical(before: seq<Block>, after: seq<Block>, z: seq<Block>)
    requires Canonical(before) && Canonical(after) && before != [] && after != [] && |z| == |before| + |after| - 1
    requires var n := |before|;
             && (forall i | 0 <= i < n - 1 :: z[i] == before[i])
             && z[n - 1].addr == before[n - 1].addr && z[n - 1].End() == after[0].End() && z[n - 1].size > 0
             && (forall i | n <= i < |z| :: z[i] == after[i - n + 1])
    ensures Canonical(z)
  {
  }

  lemma MergeFacts(blocks: seq<Block>, k: nat, b: Block, a: int)
    requires Canonical(blocks) && k <= |blocks| && b.size > 0
    requires k > 0 ==> blocks[k - 1].End() <= b.addr
    requires k < |blocks| ==> b.End() <= blocks[k].addr
    ensures Canonical(Merge(blocks, k, b))
    ensures Total(Merge(blocks, k, b)) == Total(blocks) + b.size
    ensures Covers(Merge(blocks, k, b), a) <==> Covers(blocks, a) || b.addr <= a < b.End()
  {
    assert blocks == blocks[..k] + blocks[k..];
    CanonicalConcat(blocks[..k], blocks[k..]);
    TotalSplit(blocks, k);
    CoversSplit(blocks, k, a);
    MergeRightFacts(b, blocks[k..], a);
    MergeRightCanonical(b, blocks[k..]);
    MergeLeftFacts(blocks[..k], MergeRight(b, blocks[k..]), a);
    MergeLeftCanonical(blocks[..k], MergeRight(b, blocks[k..]));
  }

  /** Freeing keeps the canonical form and adds exactly the freed range to the free set. */
  lemma FreedExact(blocks: seq<Block>, addr: nat, size: nat)
    requires Canonical(blocks) && size > 0 && Disjoint(blocks, addr, size)
    ensures Canonical(Freed(blocks, addr, size))
    ensures FreeBytes(Freed(blocks, addr, size)) == FreeBytes(blocks) + Range(addr, size)
    ensures Total(Freed(blocks, addr, size)) == Total(blocks) + size
  {
    var k := First(blocks, From(addr), 0);
    FitsBetween(blocks, addr, size, k);
    MergeFacts(blocks, k, Block(addr, size), 0);
    forall a
      ensures a in FreeBytes(Freed(blocks, addr, size)) <==> a in FreeBytes(blocks) || a in Range(addr, size)
    {
      MergeFacts(blocks, k, Block(addr, size), a);
    }
  }

  /** Freeing what was just cut off restores the very same list of blocks. */
  lemma FreeUndoesCut(blocks: seq<Block>, k: nat, size: nat)
    requires Canonical(blocks) && k < |blocks| && 0 < size <= blocks[k].size
    ensures Freed(Cut(blocks, k, size), blocks[k].addr, size) == blocks
  {
    var addr := blocks[k].addr;
    var cut := Cut(blocks, k, size);
    CutExact(blocks, k, size);
    assert Disjoint(cut, addr, size) by {
      forall a | InRange(a, addr, size)
        ensures !Covers(cut, a)
      {
        CutCovers(blocks, k, size, a);
      }
    }
    FreedExact(cut, addr, size);
    CanonicalUnique(Freed(cut, addr, size), blocks);
  }
}
