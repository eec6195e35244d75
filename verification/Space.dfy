/**
  A user address space as a value: the list of virtual memory areas, the page table
  and the frame of its directory, and what it means for them to agree.
*/
module Space {
  import opened Common
  import opened FramePool
  import opened PageTable

  datatype Upages = Upages(paddr: nat, size: nat, flags: nat, refs: nat)

  datatype Vma = Vma(start: nat, size: nat, flags: nat, pages: Upages) {
    function Page(): nat { start / PAGE_SIZE }
  }

  datatype Space = Space(vmas: seq<Vma>, dir: Directory, root: nat)

  /** Every area covers one page and has one frame to itself. */
  ghost predicate VmaOk(v: Vma)
  {
    && v.start < SPACE && v.start % PAGE_SIZE == 0
    && v.size == v.pages.size == PAGE_SIZE
    && v.pages.refs == 1
    && IsFrame(v.pages.paddr)
  }

  ghost predicate VmasOk(vmas: seq<Vma>)
  {
    && (forall v | v in vmas :: VmaOk(v))
    && (forall i, j | 0 <= i < j < |vmas| :: vmas[i].start != vmas[j].start)
    && (forall i, j | 0 <= i < j < |vmas| :: vmas[i].pages.paddr != vmas[j].pages.paddr)
  }

  ghost predicate HasPage(vmas: seq<Vma>, p: nat)
  {
    exists v :: v in vmas && v.Page() == p
  }

  ghost predicate MapsTo(flat: map<nat, nat>, v: Vma)
    requires VmaOk(v)
  {
    v.Page() in flat && flat[v.Page()] == MakePte(v.pages.paddr, v.flags)
  }

  /** The page table maps exactly the pages of the areas, each to its own frame. */
  ghost predicate Agrees(vmas: seq<Vma>, flat: map<nat, nat>)
    requires VmasOk(vmas)
  {
    && (forall v | v in vmas :: MapsTo(flat, v))
    && (forall p | p in flat :: HasPage(vmas, p))
  }

  ghost function DataFrames(vmas: seq<Vma>): set<nat>
  {
    set v | v in vmas :: v.pages.paddr
  }

  /** All frames that belong to the space: pages, leaf tables and the directory. */
  ghost function Owned(s: Space): set<nat>
  {
    DataFrames(s.vmas) + LeafFrames(s.dir) + {s.root}
  }

  ghost predicate SpaceInv(s: Space, free: set<nat>)
  {
    && Inv(s.dir, free)
    && VmasOk(s.vmas)
    && Agrees(s.vmas, Flat(s.dir))
    && IsFrame(s.root) && s.root !in free && s.root !in LeafFrames(s.dir) && s.root !in DataFrames(s.vmas)
    && DataFrames(s.vmas) !! LeafFrames(s.dir)
    && DataFrames(s.vmas) !! free
  }

  // ----- determined by the areas

  /** The areas determine the flat map. */
  lemma FlatDetermined(vmas: seq<Vma>, a: map<nat, nat>, b: map<nat, nat>)
    requires VmasOk(vmas) && Agrees(vmas, a) && Agrees(vmas, b)
    ensures a == b
  {
  }

  /** Every area has an entry, which names its frame and can be written through exactly if the area can. */
  lemma AreaEntry(s: Space, free: set<nat>, v: Vma)
    requires SpaceInv(s, free) && v in s.vmas
    ensures v.Page() in Flat(s.dir)
    ensures var pte := Flat(s.dir)[v.Page()]; PteAddr(pte) == v.pages.paddr && Grants(pte, MayWrite(v.flags))
  {
    assert VmaOk(v) && MapsTo(Flat(s.dir), v);
    EntryBits(v.pages.paddr, v.flags);
  }

  lemma OwnedNotFree(s: Space, free: set<nat>)
    requires SpaceInv(s, free)
    ensures Owned(s) !! free
  {
  }

  ghost predicate FramesConserved(s: Space, free: set<nat>, s': Space, free': set<nat>)
  {
    free' + Owned(s') == free + Owned(s)
  }

  lemma FreeDetermined(s: Space, free: set<nat>, free': set<nat>)
    requires SpaceInv(s, free) && SpaceInv(s, free') && FramesConserved(s, free, s, free')
    ensures free == free'
  {
  }

  lemma InvMoves(s: Space, free: set<nat>, free': set<nat>)
    requires SpaceInv(s, free) && Owned(s) !! free'
    ensures SpaceInv(s, free')
  {
  }

  /** What happens in one space does not concern another that shares no frame with it. */
  lemma OtherSpace(o: Space, s: Space, free: set<nat>, t: Space, free': set<nat>)
    requires SpaceInv(o, free) && Owned(o) !! Owned(s) && FramesConserved(s, free, t, free')
    ensures SpaceInv(o, free') && Owned(o) !! Owned(t)
  {
  }

  /** `t` is `s` with new areas inserted at position k. */
  ghost predicate Grown(s: Space, t: Space, k: nat, added: seq<Vma>)
  {
    && k <= |s.vmas|
    && t.vmas == s.vmas[..k] + added + s.vmas[k..]
    && t.root == s.root
    && Keeps(s.dir, t.dir)
  }

  /** `t` is `s` without the n areas from position k. */
  ghost predicate Shrunk(s: Space, t: Space, k: nat, n: nat)
  {
    && k + n <= |s.vmas|
    && t.vmas == s.vmas[..k] + s.vmas[k + n..]
    && t.root == s.root
    && Keeps(t.dir, s.dir)
  }

  /** A space that only grew took its new frames from the free ones. */
  lemma GrownFree(s: Space, free: set<nat>, t: Space, free': set<nat>, k: nat, added: seq<Vma>)
    requires Grown(s, t, k, added) && SpaceInv(t, free') && FramesConserved(s, free, t, free')
    ensures free' <= free
  {
  }

  /** Taking away what was put in restores the space, its page table and the free frames. */
  lemma ShrinkUndoesGrow(s: Space, free: set<nat>, mid: Space, t: Space, free': set<nat>, k: nat, added: seq<Vma>)
    requires SpaceInv(s, free) && SpaceInv(t, free')
    requires Grown(s, mid, k, added) && Shrunk(mid, t, k, |added|)
    requires FramesConserved(s, free, t, free')
    ensures t == s && free' == free
  {
    assert t.vmas == s.vmas;
    FlatDetermined(s.vmas, Flat(s.dir), Flat(t.dir));
    TableDetermined(s.dir, mid.dir, t.dir);
    FreeDetermined(s, free, free');
  }

  // ----- one page more or less

  function InsertAt(vmas: seq<Vma>, k: nat, v: Vma): seq<Vma>
    requires k <= |vmas|
  {
    vmas[..k] + [v] + vmas[k..]
  }

  function RemoveAt(vmas: seq<Vma>, k: nat): seq<Vma>
    requires k < |vmas|
  {
    vmas[..k] + vmas[k + 1..]
  }

  lemma InsertMembers(vmas: seq<Vma>, k: nat, v: Vma)
    requires k <= |vmas|
    ensures forall x :: x in InsertAt(vmas, k, v) <==> x in vmas || x == v
  {
  }

  lemma RemoveMembers(vmas: seq<Vma>, k: nat)
    requires VmasOk(vmas) && k < |vmas|
    ensures forall x :: x in RemoveAt(vmas, k) <==> x in vmas && x != vmas[k]
  {
  }

  lemma PagesDiffer(vmas: seq<Vma>, v: Vma, w: Vma)
    requires VmasOk(vmas) && v in vmas && w in vmas && v != w
    ensures v.Page() != w.Page() && v.pages.paddr != w.pages.paddr
  {
  }

  lemma SamePageStart(a: nat, b: nat)
    requires a % PAGE_SIZE == 0 && b % PAGE_SIZE == 0
    ensures a / PAGE_SIZE == b / PAGE_SIZE <==> a == b
  {
  }

  lemma InsertOk(vmas: seq<Vma>, k: nat, v: Vma)
    requires VmasOk(vmas) && k <= |vmas| && VmaOk(v)
    requires !HasPage(vmas, v.Page()) && v.pages.paddr !in DataFrames(vmas)
    ensures VmasOk(InsertAt(vmas, k, v))
    ensures DataFrames(InsertAt(vmas, k, v)) == DataFrames(vmas) + {v.pages.paddr}
  {
    InsertMembers(vmas, k, v);
    var next := InsertAt(vmas, k, v);
    forall i | 0 <= i < |vmas|
      ensures vmas[i].start != v.start && vmas[i].pages.paddr != v.pages.paddr
    {
      assert vmas[i] in vmas && vmas[i].Page() != v.Page();
    }
  }

  lemma InsertAgrees(vmas: seq<Vma>, k: nat, v: Vma, flat: map<nat, nat>)
    requires VmasOk(vmas) && k <= |vmas| && VmaOk(v) && VmasOk(InsertAt(vmas, k, v)) && Agrees(vmas, flat)
    requires !HasPage(vmas, v.Page())
    ensures Agrees(InsertAt(vmas, k, v), flat[v.Page() := MakePte(v.pages.paddr, v.flags)])
  {
    InsertMembers(vmas, k, v);
    var flat' := flat[v.Page() := MakePte(v.pages.paddr, v.flags)];
    forall w | w in vmas
      ensures MapsTo(flat', w)
    {
      assert MapsTo(flat, w) && w.Page() != v.Page();
    }
  }

  lemma RemoveOk(vmas: seq<Vma>, k: nat)
    requires VmasOk(vmas) && k < |vmas|
    ensures VmasOk(RemoveAt(vmas, k))
    ensures DataFrames(RemoveAt(vmas, k)) == DataFrames(vmas) - {vmas[k].pages.paddr}
  {
  }

  lemma RemoveAgrees(vmas: seq<Vma>, k: nat, flat: map<nat, nat>)
    requires VmasOk(vmas) && k < |vmas| && VmasOk(RemoveAt(vmas, k)) && Agrees(vmas, flat)
    ensures Agrees(RemoveAt(vmas, k), flat - {vmas[k].Page()})
  {
    RemoveMembers(vmas, k);
    var flat' := flat - {vmas[k].Page()};
    forall v | v in RemoveAt(vmas, k)
      ensures MapsTo(flat', v)
    {
      assert MapsTo(flat, v);
      PagesDiffer(vmas, v, vmas[k]);
    }
  }

  lemma OnePageAdded(flat: map<nat, nat>, p: nat, f: nat, flags: nat)
    requires f % PAGE_SIZE == 0
    ensures flat + RangeMap(p, 1, f, flags) == flat[p := MakePte(f, flags)]
    ensures RangeMap(p, 1, f, flags).Keys == {p}
  {
  }

  lemma FreeLeafFrames(dir: Directory, free: set<nat>, f: nat)
    requires FramesOk(dir, free)
    ensures FramesOk(dir, free - {f}) && LeafFrames(dir) !! free
    ensures f !in LeafFrames(dir) ==> FramesOk(dir, free + {f})
  {
  }

  /** Taking a frame, mapping it and inserting its area keeps the space consistent. */
  lemma AddPageOk(s: Space, free: set<nat>, v: Vma, k: nat, dir: Directory, free': set<nat>)
    requires SpaceInv(s, free) && k <= |s.vmas| && VmaOk(v) && v.pages.paddr in free
    requires Inv(dir, free') && Keeps(s.dir, dir)
    requires free' + LeafFrames(dir) == free - {v.pages.paddr} + LeafFrames(s.dir)
    requires v.Page() !in Flat(s.dir) && Flat(dir) == Flat(s.dir)[v.Page() := MakePte(v.pages.paddr, v.flags)]
    ensures var t := Space(InsertAt(s.vmas, k, v), dir, s.root);
            SpaceInv(t, free') && FramesConserved(s, free, t, free') && Grown(s, t, k, [v])
  {
    var f := v.pages.paddr;
    OwnedNotFree(s, free);
    FreeLeafFrames(dir, free', f);
    forall w | w in s.vmas
      ensures w.Page() != v.Page()
    {
      assert MapsTo(Flat(s.dir), w);
    }
    InsertOk(s.vmas, k, v);
    InsertAgrees(s.vmas, k, v, Flat(s.dir));
    AddPageFrames(DataFrames(s.vmas), LeafFrames(s.dir), s.root, free, f, LeafFrames(dir), free');
  }

  /** Where the frames are after a frame f was taken for data and some for leaves. */
  lemma AddPageFrames(data: set<nat>, leaf: set<nat>, root: nat, free: set<nat>, f: nat, leaf': set<nat>,
                      free': set<nat>)
    requires free !! data + leaf + {root} && root !in leaf && root !in data && data !! leaf && f in free
    requires free' + leaf' == free - {f} + leaf && free' !! leaf'
    ensures root !in free' && root !in leaf' && root !in data + {f}
    ensures data + {f} !! leaf' && data + {f} !! free'
    ensures free' + (data + {f} + leaf' + {root}) == free + (data + leaf + {root})
  {
  }

  /** Unmapping an area and freeing its frame keeps the space consistent. */
  lemma RemovePageOk(s: Space, free: set<nat>, k: nat, dir: Directory, free': set<nat>)
    requires SpaceInv(s, free) && k < |s.vmas|
    requires Inv(dir, free') && Keeps(dir, s.dir)
    requires free' + LeafFrames(dir) == free + LeafFrames(s.dir)
    requires Flat(dir) == Flat(s.dir) - {s.vmas[k].Page()}
    ensures var t, f := Space(RemoveAt(s.vmas, k), dir, s.root), s.vmas[k].pages.paddr;
            f !in free' && IsFrame(f) && SpaceInv(t, free' + {f})
            && FramesConserved(s, free, t, free' + {f}) && Shrunk(s, t, k, 1)
  {
    var f := s.vmas[k].pages.paddr;
    assert VmaOk(s.vmas[k]) && f in DataFrames(s.vmas);
    OwnedNotFree(s, free);
    FreeLeafFrames(dir, free', f);
    RemoveOk(s.vmas, k);
    RemoveAgrees(s.vmas, k, Flat(s.dir));
    RemovePageFrames(DataFrames(s.vmas), LeafFrames(s.dir), s.root, free, f, LeafFrames(dir), free');
  }

  lemma RemovePageFrames(data: set<nat>, leaf: set<nat>, root: nat, free: set<nat>, f: nat, leaf': set<nat>,
                         free': set<nat>)
    requires free !! data + leaf + {root} && root !in leaf && root !in data && data !! leaf && f in data
    requires free' + leaf' == free + leaf && free' !! leaf'
    ensures f !in free' && f !in leaf' && root !in free' + {f} && root !in leaf' && root !in data - {f}
    ensures data - {f} !! leaf' && data - {f} !! free' + {f}
    ensures free' + {f} + (data - {f} + leaf' + {root}) == free + (data + leaf + {root})
  {
  }
}
