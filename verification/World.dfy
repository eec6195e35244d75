/**
  All address spaces of the kernel together: which frame belongs to whom, and how
  many kernel objects are alive.
*/
module World {
  import opened Common
  import opened FramePool
  import opened PageTable
  import opened Space
  import opened Areas

  ghost predicate AllInv(w: seq<Space>, free: set<nat>)
  {
    forall i {:trigger SpaceInv(w[i], free)} | 0 <= i < |w| :: SpaceInv(w[i], free)
  }

  /** No frame belongs to two spaces. */
  ghost predicate Separate(w: seq<Space>)
  {
    forall i, j {:trigger Owned(w[i]), Owned(w[j])} | 0 <= i < |w| && 0 <= j < |w| && i != j ::
      Owned(w[i]) !! Owned(w[j])
  }

  ghost function AllOwned(w: seq<Space>): set<nat>
  {
    if w == [] then {} else Owned(w[0]) + AllOwned(w[1..])
  }

  /** An area and an upages object for each page, and one object for the space itself. */
  function Objects(w: seq<Space>): nat
  {
    if w == [] then 0 else 2 * |w[0].vmas| + 1 + Objects(w[1..])
  }

  ghost predicate WorldInv(w: seq<Space>, free: set<nat>, frames: set<nat>, heap: nat)
  {
    && AllInv(w, free) && Separate(w)
    && free + AllOwned(w) == frames
    && heap == Objects(w)
  }

  lemma {:induction false} AllOwnedIff(w: seq<Space>, f: nat)
    ensures f in AllOwned(w) <==> exists i | 0 <= i < |w| :: f in Owned(w[i])
  {
    if w != [] {
      AllOwnedIff(w[1..], f);
      if f in AllOwned(w[1..]) {
        var i :| 0 <= i < |w[1..]| && f in Owned(w[1..][i]);
        assert w[1..][i] == w[i + 1];
      }
      if i :| 0 < i < |w| && f in Owned(w[i]) {
        assert w[1..][i - 1] == w[i];
      }
    }
  }

  lemma {:induction false} ObjectsSplit(a: seq<Space>, b: seq<Space>)
    ensures Objects(a + b) == Objects(a) + Objects(b)
    ensures AllOwned(a + b) == AllOwned(a) + AllOwned(b)
  {
    if a == [] {
      assert a + b == b;
    } else {
      ObjectsSplit(a[1..], b);
      assert (a + b)[1..] == a[1..] + b;
    }
  }

  /** One space taken out of the list. */
  lemma SplitAt(w: seq<Space>, i: nat)
    requires i < |w|
    ensures var rest := w[..i] + w[i + 1..];
            Objects(w) == Objects(rest) + 2 * |w[i].vmas| + 1 && AllOwned(w) == AllOwned(rest) + Owned(w[i])
  {
    assert w == w[..i] + ([w[i]] + w[i + 1..]);
    ObjectsSplit(w[..i], [w[i]] + w[i + 1..]);
    ObjectsSplit([w[i]], w[i + 1..]);
    ObjectsSplit(w[..i], w[i + 1..]);
    assert [w[i]][1..] == [];
  }

  /** A space of the list has its objects alive. */
  lemma HeapCovers(w: seq<Space>, i: nat)
    requires i < |w|
    ensures Objects(w) >= 2 * |w[i].vmas| + 1
  {
    SplitAt(w, i);
  }

  lemma {:induction false} FewAllOwned(w: seq<Space>, free: set<nat>)
    requires AllInv(w, free)
    ensures |AllOwned(w)| <= Objects(w)
  {
    if w != [] {
      assert forall i | 0 <= i < |w[1..]| :: w[1..][i] == w[i + 1];
      FewAllOwned(w[1..], free);
      FewOwned(w[0], free);
    }
  }

  /** The frames in use are at most as many as the live objects. */
  lemma FramesLeft(w: seq<Space>, free: set<nat>, frames: set<nat>, heap: nat)
    requires WorldInv(w, free, frames, heap)
    ensures |frames| <= |free| + heap
  {
    FewAllOwned(w, free);
  }

  /** One space changes, exchanging frames with the free set only. */
  lemma Replace(w: seq<Space>, free: set<nat>, frames: set<nat>, heap: nat, i: nat, t: Space, free': set<nat>,
                heap': nat)
    requires WorldInv(w, free, frames, heap) && i < |w|
    requires SpaceInv(t, free') && FramesConserved(w[i], free, t, free')
    requires heap' + 2 * |w[i].vmas| == heap + 2 * |t.vmas|
    ensures WorldInv(w[i := t], free', frames, heap')
  {
    var w' := w[i := t];
    forall j | 0 <= j < |w| && j != i
      ensures SpaceInv(w[j], free') && Owned(w[j]) !! Owned(t)
    {
      OtherSpace(w[j], w[i], free, t, free');
    }
    SplitAt(w, i);
    SplitAt(w', i);
    assert w'[..i] + w'[i + 1..] == w[..i] + w[i + 1..];
  }

  /** A new space takes its frames from the free ones. */
  lemma Add(w: seq<Space>, free: set<nat>, frames: set<nat>, heap: nat, t: Space, free': set<nat>)
    requires WorldInv(w, free, frames, heap) && t.vmas == []
    requires SpaceInv(t, free') && free' + Owned(t) == free
    ensures WorldInv(w + [t], free', frames, heap + 1)
  {
    forall j | 0 <= j < |w|
      ensures SpaceInv(w[j], free') && Owned(w[j]) !! Owned(t)
    {
      OwnedNotFree(w[j], free);
      InvMoves(w[j], free, free');
    }
    ObjectsSplit(w, [t]);
    assert [t][1..] == [];
  }

  /** A space goes away, and all its frames become free. */
  lemma Drop(w: seq<Space>, free: set<nat>, frames: set<nat>, heap: nat, i: nat, free': set<nat>)
    requires WorldInv(w, free, frames, heap) && i < |w| && free' == free + Owned(w[i])
    ensures heap >= 2 * |w[i].vmas| + 1
    ensures WorldInv(w[..i] + w[i + 1..], free', frames, heap - 2 * |w[i].vmas| - 1)
  {
    var w' := w[..i] + w[i + 1..];
    forall j | 0 <= j < |w'|
      ensures SpaceInv(w'[j], free')
    {
      var k := if j < i then j else j + 1;
      assert w'[j] == w[k];
      OwnedNotFree(w[k], free);
      InvMoves(w[k], free, free');
    }
    SplitAt(w, i);
  }

  /**
    Every page of every space has a frame that nobody else has; its table names that
    frame, and lets it be written exactly if the area can be.
  */
  lemma FrameToItself(w: seq<Space>, free: set<nat>, frames: set<nat>, heap: nat, i: nat, a: nat, j: nat, b: nat)
    requires WorldInv(w, free, frames, heap)
    requires i < |w| && a < |w[i].vmas| && j < |w| && b < |w[j].vmas| && (i != j || a != b)
    ensures var f := w[i].vmas[a].pages.paddr;
            && SpaceInv(w[i], free) && f != w[j].vmas[b].pages.paddr && f !in free && f in frames
            && w[i].vmas[a].Page() in Flat(w[i].dir) && PteAddr(Flat(w[i].dir)[w[i].vmas[a].Page()]) == f
            && Grants(Flat(w[i].dir)[w[i].vmas[a].Page()], MayWrite(w[i].vmas[a].flags))
  {
    var v, u := w[i].vmas[a], w[j].vmas[b];
    assert SpaceInv(w[i], free) && SpaceInv(w[j], free);
    assert v in w[i].vmas && VmaOk(v) && MapsTo(Flat(w[i].dir), v) && u in w[j].vmas;
    assert v.pages.paddr in Owned(w[i]) && u.pages.paddr in Owned(w[j]);
    AllOwnedIff(w, v.pages.paddr);
    AreaEntry(w[i], free, v);
  }
}
