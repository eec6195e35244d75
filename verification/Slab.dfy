/**
  The size-class allocator behind kmalloc. Every page serves objects of one size
  and is described by a descriptor; descriptors are kept in a list, new ones in
  front. A page that loses its last object goes back to the page allocator, but its
  descriptor stays in the list with the old page address and is reused later.
*/
module Slab {
  import opened Common
  import opened SlabStatus

  const PG_EMPTY: nat := 0x7ffff
  const CLASSES: seq<nat> := [0x1000, 0x800, 0x400, 0x200, 0x100, 0x80, 0x40, 0x20, 0x10]
  datatype Desc = Desc(page: nat, size: nat, num: int, status: Status) {
    predicate Empty() { size == PG_EMPTY }
  }

  // ----- size classes

  /** The last class, searching from position i down, that is large enough. */
  function ClassFrom(size: nat, i: nat): (c: nat)
    requires i < |CLASSES| && 0 < size <= PAGE_SIZE
    requires forall j | i < j < |CLASSES| :: CLASSES[j] < size
    ensures c in CLASSES && c >= size
    ensures forall d | d in CLASSES && d >= size :: c <= d
  {
    if CLASSES[i] >= size then CLASSES[i] else ClassFrom(size, i - 1)
  }

  function ClassOf(size: nat): (c: nat)
    requires 0 < size <= PAGE_SIZE
    ensures c in CLASSES && c >= size
    ensures forall d | d in CLASSES && d >= size :: c <= d
  {
    ClassFrom(size, |CLASSES| - 1)
  }

  lemma ClassFacts(c: nat)
    requires c in CLASSES
    ensures c == BIT_SIZE * (c / BIT_SIZE) && Divides(c / BIT_SIZE) && 0 < c <= PAGE_SIZE
  {
  }

  // ----- searching the list

  /** What a search looks for: room for an object of a size, an empty descriptor, or an address. */
  datatype Want = Room(size: nat) | Vacant | Around(addr: nat)

  predicate Matches(d: Desc, w: Want)
  {
    match w
    case Room(c) => c == d.size && d.num * d.size < PAGE_SIZE
    case Vacant => d.Empty()
    case Around(a) => d.page <= a < d.page + PAGE_SIZE
  }

  ghost function First(descs: seq<Desc>, w: Want, i: nat): (r: nat)
    requires i <= |descs|
    ensures i <= r <= |descs|
    ensures r < |descs| ==> Matches(descs[r], w)
    ensures forall j | i <= j < r :: !Matches(descs[j], w)
    decreases |descs| - i
  {
    if i == |descs| || Matches(descs[i], w) then i else First(descs, w, i + 1)
  }

  // ----- one call of each routine, as functions on the list

  function Clear(): (s: Status)
    ensures forall i: nat | i < UNITS :: !IsSet(s, i)
  {
    seq(UNITS, _ => false)
  }

  function Fresh(page: nat, size: nat): Desc { Desc(page, size, 0, Clear()) }

  /** The list once there is a descriptor with room for class c, and its position. */
  ghost function Target(descs: seq<Desc>, c: nat, page: nat): (r: (seq<Desc>, nat))
    ensures r.1 < |r.0|
  {
    var i := First(descs, Room(c), 0);
    var j := First(descs, Vacant, 0);
    if i < |descs| then (descs, i)
    else if j < |descs| then (descs[j := Fresh(page, c)], j)
    else ([Fresh(page, c)] + descs, 0)
  }

  ghost function Unit(d: Desc): nat
  {
    if d.size / BIT_SIZE > 0 then FreeUnit(d.status, d.size / BIT_SIZE, 0) else UNITS
  }

  /** The address of the first free slot of the descriptor. */
  ghost function Slot(d: Desc): nat { d.page + BIT_SIZE * Unit(d) }

  /** Take the first free slot of the descriptor. */
  ghost function Place(d: Desc): Desc
  {
    Desc(d.page, d.size, d.num + 1, if Unit(d) < UNITS then Flip(d.status, Unit(d)) else d.status)
  }

  /** `page` is the page that the page allocator would supply; a null page ends the call. */
  ghost function AllocResult(descs: seq<Desc>, size: nat, page: nat): (Option<nat>, seq<Desc>)
  {
    if size == 0 || size > PAGE_SIZE || (page == 0 && TakesPage(descs, size)) then (None, descs)
    else
      var t := Target(descs, ClassOf(size), page);
      (Some(Slot(t.0[t.1])), t.0[t.1 := Place(t.0[t.1])])
  }

  /** No descriptor of class c has room. */
  predicate AllFull(descs: seq<Desc>, c: nat)
  {
    forall d | d in descs :: d.size != c || d.num * d.size >= PAGE_SIZE
  }

  /** A request gets nothing, and changes nothing, exactly if its size is impossible or it lacks a page. */
  lemma RefusedIff(descs: seq<Desc>, size: nat, page: nat)
    ensures AllocResult(descs, size, page).0.None? <==>
              size == 0 || size > PAGE_SIZE || (page == 0 && AllFull(descs, ClassOf(size)))
    ensures AllocResult(descs, size, page).0.None? ==> AllocResult(descs, size, page).1 == descs
  {
    if 0 < size <= PAGE_SIZE {
      var k := First(descs, Room(ClassOf(size)), 0);
      if k < |descs| { assert descs[k] in descs; }
      forall d | d in descs && k == |descs|
        ensures !Matches(d, Room(ClassOf(size)))
      {
        var i :| 0 <= i < |descs| && descs[i] == d;
      }
    }
  }

  ghost predicate TakesPage(descs: seq<Desc>, size: nat)
  {
    0 < size <= PAGE_SIZE && First(descs, Room(ClassOf(size)), 0) == |descs|
  }

  /** Clear the slot at `obj`; without objects the descriptor is emptied but keeps its page address. */
  function Remove(d: Desc, obj: nat): Desc
    requires Matches(d, Around(obj))
  {
    var pos := (obj - d.page) / BIT_SIZE;
    var status := if IsSet(d.status, pos) then Flip(d.status, pos) else d.status;
    Desc(d.page, if d.num - 1 == 0 then PG_EMPTY else d.size, d.num - 1, status)
  }

  ghost function FreeResult(descs: seq<Desc>, obj: nat): seq<Desc>
  {
    var i := First(descs, Around(obj), 0);
    if i == |descs| then descs else descs[i := Remove(descs[i], obj)]
  }

  // ----- the objects and pages of a list

  /** The descriptor holds a live object at address a. */
  ghost predicate Holds(d: Desc, a: int)
  {
    && !d.Empty()
    && d.page <= a < d.page + PAGE_SIZE
    && (a - d.page) % BIT_SIZE == 0
    && IsSet(d.status, (a - d.page) / BIT_SIZE)
  }

  ghost predicate Has(descs: seq<Desc>, a: int, s: int)
  {
    exists i | 0 <= i < |descs| :: Holds(descs[i], a) && descs[i].size == s
  }

  /** The live objects, as pairs of address and size. */
  ghost function Objects(descs: seq<Desc>): iset<(int, int)>
  {
    iset o: (int, int) | Has(descs, o.0, o.1)
  }

  ghost predicate HasPage(descs: seq<Desc>, p: int)
  {
    exists i | 0 <= i < |descs| :: !descs[i].Empty() && descs[i].page == p
  }

  ghost function Pages(descs: seq<Desc>): iset<int>
  {
    iset p | HasPage(descs, p)
  }

  // ----- the invariant

  ghost predicate DescInv(d: Desc)
  {
    && d.page % PAGE_SIZE == 0 && d.page > 0
    && (d.Empty() ||
        (d.size in CLASSES && OnStride(d.status, d.size / BIT_SIZE) && d.num == SetCount(d.status, UNITS)))
  }

  /**
    Live descriptors have distinct pages, and an empty descriptor never has the
    page address of a live one that comes after it.
  */
  ghost predicate Ordered(descs: seq<Desc>)
  {
    forall i, j | 0 <= i < j < |descs| && !descs[j].Empty() :: descs[i].page != descs[j].page
  }

  ghost predicate Core(descs: seq<Desc>)
  {
    (forall i | 0 <= i < |descs| :: DescInv(descs[i])) && Ordered(descs)
  }

  ghost predicate Inv(descs: seq<Desc>)
  {
    Core(descs) && forall i | 0 <= i < |descs| :: descs[i].Empty() || descs[i].num > 0
  }

  // ----- the owner of an object

  lemma SamePage(p: nat, q: nat, a: int)
    requires p % PAGE_SIZE == 0 && q % PAGE_SIZE == 0
    requires p <= a < p + PAGE_SIZE && q <= a < q + PAGE_SIZE
    ensures p == q
  {
  }

  /** The first descriptor whose page contains a live object is the one that holds it. */
  lemma FirstIsOwner(descs: seq<Desc>, a: nat, k: nat)
    requires Core(descs) && k < |descs| && Holds(descs[k], a)
    ensures First(descs, Around(a), 0) == k
  {
    var i := First(descs, Around(a), 0);
    if i < k { SamePage(descs[i].page, descs[k].page, a); }
  }

  lemma OneOwner(descs: seq<Desc>, a: int, i: nat, j: nat)
    requires Core(descs) && i < |descs| && j < |descs| && Holds(descs[i], a) && Holds(descs[j], a)
    ensures i == j
  {
    SamePage(descs[i].page, descs[j].page, a);
  }

  // ----- getting a descriptor with room

  lemma FreshFacts(page: nat, c: nat)
    requires page % PAGE_SIZE == 0 && page > 0 && c in CLASSES
    ensures DescInv(Fresh(page, c)) && !Fresh(page, c).Empty() && Matches(Fresh(page, c), Room(c))
    ensures forall a :: !Holds(Fresh(page, c), a)
  {
    ClassFacts(c);
    CountNone(Clear(), UNITS);
  }

  /** What remains of a list outside position i. */
  ghost predicate HasElsewhere(descs: seq<Desc>, i: nat, a: int, s: int)
  {
    exists j | 0 <= j < |descs| && j != i :: Holds(descs[j], a) && descs[j].size == s
  }

  lemma HasSplit(descs: seq<Desc>, i: nat, a: int, s: int)
    requires i < |descs|
    ensures Has(descs, a, s) <==> HasElsewhere(descs, i, a, s) || (Holds(descs[i], a) && descs[i].size == s)
  {
  }

  lemma ElsewhereKept(descs: seq<Desc>, i: nat, d: Desc, a: int, s: int)
    requires i < |descs|
    ensures HasElsewhere(descs[i := d], i, a, s) <==> HasElsewhere(descs, i, a, s)
  {
    var ds := descs[i := d];
    if HasElsewhere(descs, i, a, s) {
      var j :| 0 <= j < |descs| && j != i && Holds(descs[j], a) && descs[j].size == s;
      assert ds[j] == descs[j];
    }
    if HasElsewhere(ds, i, a, s) {
      var j :| 0 <= j < |ds| && j != i && Holds(ds[j], a) && ds[j].size == s;
      assert ds[j] == descs[j];
    }
  }

  /** Replacing one descriptor changes only that descriptor's objects. */
  lemma HasUpdate(descs: seq<Desc>, i: nat, d: Desc, a: int, s: int)
    requires i < |descs|
    ensures Has(descs[i := d], a, s) <==> HasElsewhere(descs, i, a, s) || (Holds(d, a) && d.size == s)
  {
    HasSplit(descs[i := d], i, a, s);
    ElsewhereKept(descs, i, d, a, s);
  }

  lemma HasPrepend(descs: seq<Desc>, d: Desc, a: int, s: int)
    ensures Has([d] + descs, a, s) <==> Has(descs, a, s) || (Holds(d, a) && d.size == s)
  {
    var ds := [d] + descs;
    if Has(descs, a, s) {
      var j :| 0 <= j < |descs| && Holds(descs[j], a) && descs[j].size == s;
      assert ds[j + 1] == descs[j];
    }
    if Has(ds, a, s) {
      var j :| 0 <= j < |ds| && Holds(ds[j], a) && ds[j].size == s;
      if j > 0 { assert ds[j] == descs[j - 1]; }
    }
    if Holds(d, a) { assert ds[0] == d; }
  }

  /** `page` may be handed to a list: page aligned, not null, and not in use there. */
  ghost predicate PageOk(descs: seq<Desc>, page: nat)
  {
    page % PAGE_SIZE == 0 && page > 0 && page !in Pages(descs)
  }

  /**
    Reusing the first empty descriptor keeps the order: everything before it is
    live, so no stale address comes before the new page.
  */
  lemma ReuseCore(descs: seq<Desc>, c: nat, page: nat, j: nat)
    requires Core(descs) && c in CLASSES && PageOk(descs, page)
    requires j == First(descs, Vacant, 0) && j < |descs|
    ensures Core(descs[j := Fresh(page, c)])
  {
    FreshFacts(page, c);
    var ds := descs[j := Fresh(page, c)];
    forall i, k | 0 <= i < k < |ds| && !ds[k].Empty()
      ensures ds[i].page != ds[k].page
    {
      if k == j {
        assert !Matches(descs[i], Vacant);
        assert HasPage(descs, descs[i].page);
      } else if i == j {
        assert HasPage(descs, descs[k].page);
      }
    }
  }

  lemma PrependCore(descs: seq<Desc>, c: nat, page: nat)
    requires Core(descs) && c in CLASSES && PageOk(descs, page)
    ensures Core([Fresh(page, c)] + descs)
  {
    FreshFacts(page, c);
    var ds := [Fresh(page, c)] + descs;
    forall i, k | 0 <= i < k < |ds| && !ds[k].Empty()
      ensures ds[i].page != ds[k].page
    {
      assert ds[k] == descs[k - 1];
      assert HasPage(descs, descs[k - 1].page);
    }
  }

  /** Getting a descriptor with room keeps the invariant and the objects. */
  lemma TargetFacts(descs: seq<Desc>, c: nat, page: nat)
    requires Core(descs) && c in CLASSES && (First(descs, Room(c), 0) == |descs| ==> PageOk(descs, page))
    ensures var (ds, i) := Target(descs, c, page);
            Core(ds) && Matches(ds[i], Room(c)) && ds[i].size == c && Objects(ds) == Objects(descs)
  {
    var (ds, i) := Target(descs, c, page);
    var j := First(descs, Vacant, 0);
    if First(descs, Room(c), 0) == |descs| {
      FreshFacts(page, c);
      if j < |descs| { ReuseCore(descs, c, page, j); } else { PrependCore(descs, c, page); }
      forall a, s
        ensures Has(ds, a, s) <==> Has(descs, a, s)
      {
        if j < |descs| {
          HasUpdate(descs, j, Fresh(page, c), a, s);
          HasSplit(descs, j, a, s);
        } else {
          HasPrepend(descs, Fresh(page, c), a, s);
        }
      }
    }
  }

  lemma PagesUpdate(ds: seq<Desc>, i: nat, d: Desc)
    requires i < |ds| && !d.Empty() && (ds[i].Empty() || ds[i].page == d.page)
    ensures Pages(ds[i := d]) == Pages(ds) + iset{d.page}
  {
    var next := ds[i := d];
    forall p
      ensures HasPage(next, p) <==> HasPage(ds, p) || p == d.page
    {
      if HasPage(ds, p) {
        var k :| 0 <= k < |ds| && !ds[k].Empty() && ds[k].page == p;
        assert !next[k].Empty() && next[k].page == p;
      }
      if p == d.page { assert next[i] == d; }
      if HasPage(next, p) && p != d.page {
        var k :| 0 <= k < |next| && !next[k].Empty() && next[k].page == p;
        assert ds[k] == next[k];
      }
    }
  }

  lemma PagesPrepend(ds: seq<Desc>, d: Desc)
    requires !d.Empty()
    ensures Pages([d] + ds) == Pages(ds) + iset{d.page}
  {
    var next := [d] + ds;
    forall p
      ensures HasPage(next, p) <==> HasPage(ds, p) || p == d.page
    {
      if HasPage(ds, p) {
        var k :| 0 <= k < |ds| && !ds[k].Empty() && ds[k].page == p;
        assert next[k + 1] == ds[k];
      }
      if p == d.page { assert next[0] == d; }
      if HasPage(next, p) && p != d.page {
        var k :| 0 <= k < |next| && !next[k].Empty() && next[k].page == p;
        assert ds[k - 1] == next[k];
      }
    }
  }

  /** A page is added exactly when no descriptor of the class has room. */
  lemma PagesTarget(descs: seq<Desc>, c: nat, page: nat)
    requires c in CLASSES
    ensures Pages(Target(descs, c, page).0) ==
              if First(descs, Room(c), 0) == |descs| then Pages(descs) + iset{page} else Pages(descs)
  {
    var j := First(descs, Vacant, 0);
    assert !Fresh(page, c).Empty() by { ClassFacts(c); }
    if j < |descs| { PagesUpdate(descs, j, Fresh(page, c)); }
    PagesPrepend(descs, Fresh(page, c));
  }

  /** Every other descriptor of the list is as it was, and so still empty or in use. */
  lemma TargetRest(descs: seq<Desc>, c: nat, page: nat)
    requires Inv(descs)
    ensures var t := Target(descs, c, page);
            forall k | 0 <= k < |t.0| && k != t.1 :: t.0[k].Empty() || t.0[k].num > 0
  {
  }

  // ----- taking a slot

  lemma RoomUnits(num: int, size: nat, leap: nat)
    requires size == BIT_SIZE * leap && num * size < PAGE_SIZE
    ensures num * leap < UNITS
  {
  }

  lemma UnitFacts(d: Desc)
    requires DescInv(d) && d.size in CLASSES && Matches(d, Room(d.size))
    ensures var leap := d.size / BIT_SIZE;
            leap > 0 && Unit(d) + leap <= UNITS && Unit(d) % leap == 0 && !IsSet(d.status, Unit(d))
  {
    ClassFacts(d.size);
    RoomUnits(d.num, d.size, d.size / BIT_SIZE);
    SlotFound(d.status, d.size / BIT_SIZE);
  }

  lemma SameUnit(page: nat, a: int, u: nat)
    requires page <= a && (a - page) % BIT_SIZE == 0
    ensures (a - page) / BIT_SIZE == u <==> a == page + BIT_SIZE * u
  {
  }

  /** Placing an object sets exactly its bit. */
  lemma PlaceFacts(d: Desc)
    requires DescInv(d) && d.size in CLASSES && Matches(d, Room(d.size))
    ensures DescInv(Place(d)) && Place(d).page == d.page && Place(d).size == d.size && Place(d).num > 0
    ensures !Holds(d, Slot(d)) && forall a :: Holds(Place(d), a) <==> Holds(d, a) || a == Slot(d)
  {
    UnitFacts(d);
    var u := Unit(d);
    CountFlip(d.status, u, UNITS);
    forall i: nat | i < UNITS
      ensures IsSet(Place(d).status, i) <==> IsSet(d.status, i) || i == u
    {
      FlipBit(d.status, u, i);
    }
    forall a
      ensures Holds(Place(d), a) <==> Holds(d, a) || a == Slot(d)
    {
      PlaceHolds(d, a);
    }
  }

  lemma PlaceHolds(d: Desc, a: int)
    requires DescInv(d) && d.size in CLASSES && Matches(d, Room(d.size))
    ensures Holds(Place(d), a) <==> Holds(d, a) || a == Slot(d)
  {
    UnitFacts(d);
    var u := Unit(d);
    if d.page <= a < d.page + PAGE_SIZE && (a - d.page) % BIT_SIZE == 0 {
      SameUnit(d.page, a, u);
      FlipBit(d.status, u, (a - d.page) / BIT_SIZE);
    }
  }

  lemma SlotAligned(page: nat, u: nat, c: nat)
    requires c in CLASSES && page % PAGE_SIZE == 0 && u % (c / BIT_SIZE) == 0
    ensures (page + BIT_SIZE * u) % c == 0
  {
    var leap := c / BIT_SIZE;
    assert c == BIT_SIZE * leap && PAGE_SIZE == c * (PAGE_SIZE / c);
    assert u == u / leap * leap;
    var k := page / PAGE_SIZE * (PAGE_SIZE / c) + u / leap;
    assert page == page / PAGE_SIZE * PAGE_SIZE;
    assert page + BIT_SIZE * u == k * c;
    MultipleMod(k, c);
  }

  lemma PlaceCore(ds: seq<Desc>, i: nat)
    requires Core(ds) && i < |ds| && ds[i].size in CLASSES && Matches(ds[i], Room(ds[i].size))
    ensures Core(ds[i := Place(ds[i])]) && Pages(ds[i := Place(ds[i])]) == Pages(ds)
  {
    PlaceFacts(ds[i]);
    PagesUpdate(ds, i, Place(ds[i]));
    assert HasPage(ds, ds[i].page) by { ClassFacts(ds[i].size); }
  }

  lemma PlaceObjects(ds: seq<Desc>, i: nat)
    requires Core(ds) && i < |ds| && ds[i].size in CLASSES && Matches(ds[i], Room(ds[i].size))
    ensures Objects(ds[i := Place(ds[i])]) == Objects(ds) + iset{(Slot(ds[i]), ds[i].size)}
  {
    PlaceFacts(ds[i]);
    forall a, s
      ensures Has(ds[i := Place(ds[i])], a, s) <==> Has(ds, a, s) || (a == Slot(ds[i]) && s == ds[i].size)
    {
      HasUpdate(ds, i, Place(ds[i]), a, s);
      HasSplit(ds, i, a, s);
    }
  }

  lemma PlaceIsNew(ds: seq<Desc>, i: nat, s: int)
    requires Core(ds) && i < |ds| && ds[i].size in CLASSES && Matches(ds[i], Room(ds[i].size))
    ensures (Slot(ds[i]), s) !in Objects(ds)
  {
    var obj := Slot(ds[i]);
    PlaceFacts(ds[i]);
    UnitFacts(ds[i]);
    if Has(ds, obj, s) {
      var j :| 0 <= j < |ds| && Holds(ds[j], obj) && ds[j].size == s;
      SamePage(ds[j].page, ds[i].page, obj);
    }
  }

  lemma PlaceInv(ds: seq<Desc>, i: nat)
    requires Core(ds) && i < |ds| && ds[i].size in CLASSES && Matches(ds[i], Room(ds[i].size))
    requires forall k | 0 <= k < |ds| && k != i :: ds[k].Empty() || ds[k].num > 0
    ensures Inv(ds[i := Place(ds[i])]) && Pages(ds[i := Place(ds[i])]) == Pages(ds)
  {
    PlaceCore(ds, i);
    PlaceFacts(ds[i]);
  }

  lemma PlaceAligned(d: Desc)
    requires DescInv(d) && d.size in CLASSES && Matches(d, Room(d.size))
    ensures Slot(d) % d.size == 0
  {
    UnitFacts(d);
    SlotAligned(d.page, Unit(d), d.size);
  }

  /** An allocation adds exactly one object, of the least class that holds the request. */
  lemma AllocAdds(descs: seq<Desc>, size: nat, page: nat)
    requires Inv(descs) && (TakesPage(descs, size) ==> PageOk(descs, page)) && 0 < size <= PAGE_SIZE
    ensures AllocResult(descs, size, page).0.Some?
    ensures var o := (AllocResult(descs, size, page).0.value, ClassOf(size));
            o !in Objects(descs) && Objects(AllocResult(descs, size, page).1) == Objects(descs) + iset{o}
  {
    var c := ClassOf(size);
    var t := Target(descs, c, page);
    TargetFacts(descs, c, page);
    PlaceObjects(t.0, t.1);
    PlaceIsNew(t.0, t.1, c);
  }

  /**
    An allocation keeps the invariant, and takes a page from the page allocator
    exactly when no descriptor of the class has room.
  */
  lemma AllocKeepsInv(descs: seq<Desc>, size: nat, page: nat)
    requires Inv(descs) && (TakesPage(descs, size) ==> PageOk(descs, page))
    ensures Inv(AllocResult(descs, size, page).1)
    ensures Pages(AllocResult(descs, size, page).1) ==
              if TakesPage(descs, size) then Pages(descs) + iset{page} else Pages(descs)
  {
    if 0 < size <= PAGE_SIZE {
      var c := ClassOf(size);
      var t := Target(descs, c, page);
      TargetFacts(descs, c, page);
      PagesTarget(descs, c, page);
      TargetRest(descs, c, page);
      PlaceInv(t.0, t.1);
    }
  }

  /** The object is aligned to its class. */
  lemma AllocAligned(descs: seq<Desc>, size: nat, page: nat)
    requires Inv(descs) && (TakesPage(descs, size) ==> PageOk(descs, page)) && 0 < size <= PAGE_SIZE
    ensures AllocResult(descs, size, page).0.Some?
    ensures AllocResult(descs, size, page).0.value % ClassOf(size) == 0
  {
    var c := ClassOf(size);
    var t := Target(descs, c, page);
    TargetFacts(descs, c, page);
    PlaceAligned(t.0[t.1]);
  }

  /**
    A failure of the page allocator arrives as an address that is neither null nor a
    page. It is handed out as an object, and the list stays in order exactly if no page
    was needed.
  */
  lemma FailureUnnoticed(descs: seq<Desc>, size: nat, page: nat)
    requires Inv(descs) && 0 < size <= PAGE_SIZE && page % PAGE_SIZE != 0
    ensures Inv(AllocResult(descs, size, page).1) <==> !TakesPage(descs, size)
    ensures TakesPage(descs, size) ==> AllocResult(descs, size, page).0 == Some(page)
  {
    if TakesPage(descs, size) {
      var t := Target(descs, ClassOf(size), page);
      FirstUnit(page, ClassOf(size));
      assert AllocResult(descs, size, page).1[t.1].page == page;
    } else {
      AllocKeepsInv(descs, size, page);
    }
  }

  /** The first object of a new descriptor is at its page. */
  lemma FirstUnit(page: nat, c: nat)
    requires c in CLASSES
    ensures Slot(Fresh(page, c)) == page && Place(Fresh(page, c)).page == page
  {
    ClassFacts(c);
  }

  // ----- freeing

  /** Removing an object clears exactly its bit; with the last one the descriptor is emptied. */
  lemma RemoveFacts(d: Desc, obj: nat)
    requires DescInv(d) && Holds(d, obj)
    ensures DescInv(Remove(d, obj)) && Remove(d, obj).page == d.page
    ensures Remove(d, obj).Empty() || (Remove(d, obj).num > 0 && Remove(d, obj).size == d.size)
    ensures Remove(d, obj).Empty() <==> d.num == 1
  {
    var pos := (obj - d.page) / BIT_SIZE;
    ClassFacts(d.size);
    CountFlip(d.status, pos, UNITS);
    forall i: nat | i < UNITS
      ensures IsSet(Flip(d.status, pos), i) <==> IsSet(d.status, i) && i != pos
    {
      FlipBit(d.status, pos, i);
    }
  }

  lemma RemoveHolds(d: Desc, obj: nat, a: int)
    requires DescInv(d) && Holds(d, obj)
    ensures Holds(Remove(d, obj), a) <==> Holds(d, a) && a != obj
  {
    var pos := (obj - d.page) / BIT_SIZE;
    CountFlip(d.status, pos, UNITS);
    if d.page <= a < d.page + PAGE_SIZE && (a - d.page) % BIT_SIZE == 0 {
      var i := (a - d.page) / BIT_SIZE;
      SameUnit(d.page, a, pos);
      SameUnit(d.page, obj, pos);
      FlipBit(d.status, pos, i);
      if d.num == 1 { CountZero(Flip(d.status, pos), UNITS); }
    }
  }

  lemma FreeTarget(descs: seq<Desc>, obj: nat, s: int) returns (k: nat)
    requires Core(descs) && Has(descs, obj, s)
    ensures k < |descs| && Holds(descs[k], obj) && descs[k].size == s
    ensures First(descs, Around(obj), 0) == k && FreeResult(descs, obj) == descs[k := Remove(descs[k], obj)]
  {
    k :| 0 <= k < |descs| && Holds(descs[k], obj) && descs[k].size == s;
    FirstIsOwner(descs, obj, k);
  }

  /** Freeing a live object removes exactly that object. */
  lemma FreeRemoves(descs: seq<Desc>, obj: nat, s: int)
    requires Inv(descs) && (obj, s) in Objects(descs)
    ensures Objects(FreeResult(descs, obj)) == Objects(descs) - iset{(obj, s)}
  {
    var k := FreeTarget(descs, obj, s);
    var d := Remove(descs[k], obj);
    RemoveFacts(descs[k], obj);
    forall a, t
      ensures Has(descs[k := d], a, t) <==> Has(descs, a, t) && !(a == obj && t == s)
    {
      HasUpdate(descs, k, d, a, t);
      HasSplit(descs, k, a, t);
      RemoveHolds(descs[k], obj, a);
      if HasElsewhere(descs, k, a, t) && a == obj {
        var j :| 0 <= j < |descs| && j != k && Holds(descs[j], a) && descs[j].size == t;
        OneOwner(descs, a, j, k);
      }
    }
  }

  /** The page given back by a free, if any. */
  ghost function FreedPage(descs: seq<Desc>, obj: nat): Option<nat>
  {
    var i := First(descs, Around(obj), 0);
    if i < |descs| && descs[i].num == 1 then Some(descs[i].page) else None
  }

  lemma FreeKeepsInv(descs: seq<Desc>, obj: nat, s: int)
    requires Inv(descs) && (obj, s) in Objects(descs)
    ensures Inv(FreeResult(descs, obj))
    ensures FreedPage(descs, obj).Some? ==> FreedPage(descs, obj).value in Pages(descs)
    ensures Pages(FreeResult(descs, obj)) ==
              if FreedPage(descs, obj).Some? then Pages(descs) - iset{FreedPage(descs, obj).value} else Pages(descs)
  {
    var k := FreeTarget(descs, obj, s);
    RemoveFacts(descs[k], obj);
    assert HasPage(descs, descs[k].page);
    if descs[k].num == 1 {
      PagesRemove(descs, k, Remove(descs[k], obj));
    } else {
      PagesUpdate(descs, k, Remove(descs[k], obj));
    }
  }

  lemma PagesRemove(ds: seq<Desc>, k: nat, d: Desc)
    requires Core(ds) && k < |ds| && !ds[k].Empty() && d.Empty()
    ensures Pages(ds[k := d]) == Pages(ds) - iset{ds[k].page}
  {
    var next := ds[k := d];
    forall p
      ensures HasPage(next, p) <==> HasPage(ds, p) && p != ds[k].page
    {
      if HasPage(next, p) {
        var i :| 0 <= i < |next| && !next[i].Empty() && next[i].page == p;
        assert i != k && ds[i] == next[i];
      }
      if HasPage(ds, p) && p != ds[k].page {
        var i :| 0 <= i < |ds| && !ds[i].Empty() && ds[i].page == p;
        assert next[i] == ds[i];
      }
    }
  }

  /** A page is given back exactly when the freed object was the only one in it. */
  lemma FreedPageIff(descs: seq<Desc>, obj: nat, s: int, p: nat)
    requires Inv(descs) && (obj, s) in Objects(descs) && p in Pages(descs) && p <= obj < p + PAGE_SIZE
    ensures FreedPage(descs, obj) == Some(p) <==>
              forall o | o in Objects(descs) && p <= o.0 < p + PAGE_SIZE :: o.0 == obj
  {
    var k := FreeTarget(descs, obj, s);
    var d := descs[k];
    var i :| 0 <= i < |descs| && !descs[i].Empty() && descs[i].page == p;
    SamePage(p, d.page, obj);
    if d.num == 1 {
      forall o | o in Objects(descs) && p <= o.0 < p + PAGE_SIZE
        ensures o.0 == obj
      {
        var j :| 0 <= j < |descs| && Holds(descs[j], o.0) && descs[j].size == o.1;
        SamePage(descs[j].page, p, o.0);
        assert j == k;
        RemoveHolds(d, obj, o.0);
        RemoveFacts(d, obj);
      }
    } else {
      var a := AnotherObject(d, obj);
      assert Has(descs, a, d.size);
      assert (a, d.size) in Objects(descs);
    }
  }

  /** With more than one object, there is another one in the page. */
  lemma AnotherObject(d: Desc, obj: nat) returns (a: int)
    requires DescInv(d) && Holds(d, obj) && d.num != 1
    ensures Holds(d, a) && a != obj
  {
    var pos := (obj - d.page) / BIT_SIZE;
    CountFlip(d.status, pos, UNITS);
    var rest := Flip(d.status, pos);
    if forall i: nat | i < UNITS :: !IsSet(rest, i) { CountNone(rest, UNITS); }
    var i: nat :| i < UNITS && IsSet(rest, i);
    FlipBit(d.status, pos, i);
    a := d.page + BIT_SIZE * i;
    SameUnit(d.page, a, i);
    SameUnit(d.page, obj, pos);
  }

  // ----- objects do not overlap

  lemma StrideApart(i: nat, j: nat, leap: nat)
    requires leap > 0 && i % leap == 0 && j % leap == 0 && i < j
    ensures i + leap <= j
  {
    assert i == i / leap * leap && j == j / leap * leap;
    assert j - i == (j / leap - i / leap) * leap;
    MultipleSize(j / leap - i / leap, leap);
  }

  lemma HeldBounds(d: Desc, a: int)
    requires DescInv(d) && Holds(d, a)
    ensures d.size > 0 && a + d.size <= d.page + PAGE_SIZE && (a - d.page) / BIT_SIZE % (d.size / BIT_SIZE) == 0
  {
    ClassFacts(d.size);
    RoomForOne((a - d.page) / BIT_SIZE, d.size / BIT_SIZE);
  }

  lemma HeldApart(d: Desc, a: int, b: int)
    requires DescInv(d) && Holds(d, a) && Holds(d, b) && a < b
    ensures a + d.size <= b
  {
    ClassFacts(d.size);
    HeldBounds(d, a);
    HeldBounds(d, b);
    StrideApart((a - d.page) / BIT_SIZE, (b - d.page) / BIT_SIZE, d.size / BIT_SIZE);
  }

  /** A live object is aligned to its class. */
  lemma HeldAligned(d: Desc, a: int)
    requires DescInv(d) && Holds(d, a)
    ensures d.size in CLASSES && d.size > 0 && a % d.size == 0
  {
    HeldBounds(d, a);
    var u := (a - d.page) / BIT_SIZE;
    SameUnit(d.page, a, u);
    SlotAligned(d.page, u, d.size);
  }

  /** Any two live objects are the same object or do not overlap. */
  lemma ObjectsDisjoint(descs: seq<Desc>, o: (int, int), u: (int, int))
    requires Inv(descs) && o in Objects(descs) && u in Objects(descs) && o.0 <= u.0
    ensures o == u || o.0 + o.1 <= u.0
  {
    var i :| 0 <= i < |descs| && Holds(descs[i], o.0) && descs[i].size == o.1;
    var j :| 0 <= j < |descs| && Holds(descs[j], u.0) && descs[j].size == u.1;
    if i == j {
      if o.0 < u.0 { HeldApart(descs[i], o.0, u.0); }
    } else {
      HeldBounds(descs[i], o.0);
      assert descs[i].page != descs[j].page;
      PagesApart(descs[i].page, descs[j].page);
    }
  }

  lemma PagesApart(p: nat, q: nat)
    requires p % PAGE_SIZE == 0 && q % PAGE_SIZE == 0 && p != q
    ensures p + PAGE_SIZE <= q || q + PAGE_SIZE <= p
  {
  }

  // ----- runs

  datatype Op = AllocOp(size: nat, page: nat) | FreeOp(obj: nat, size: nat)

  /** The allocator together with the pages that the page allocator has free. */
  datatype Machine = Machine(descs: seq<Desc>, free: iset<int>)

  /** The page allocator supplies a free page when one is needed; callers free live objects only. */
  ghost predicate Allowed(m: Machine, op: Op)
  {
    match op
    case AllocOp(size, page) => TakesPage(m.descs, size) ==> page in m.free
    case FreeOp(obj, size) => (obj, size) in Objects(m.descs)
  }

  ghost function Apply(m: Machine, op: Op): Machine
  {
    match op
    case AllocOp(size, page) =>
      Machine(AllocResult(m.descs, size, page).1, if TakesPage(m.descs, size) then m.free - iset{page} else m.free)
    case FreeOp(obj, _) =>
      var p := FreedPage(m.descs, obj);
      Machine(FreeResult(m.descs, obj), if p.Some? then m.free + iset{p.value} else m.free)
  }

  ghost predicate AllowedRun(m: Machine, ops: seq<Op>)
    decreases |ops|
  {
    ops == [] || (Allowed(m, ops[0]) && AllowedRun(Apply(m, ops[0]), ops[1..]))
  }

  ghost function Run(m: Machine, ops: seq<Op>): Machine
    decreases |ops|
  {
    if ops == [] then m else Run(Apply(m, ops[0]), ops[1..])
  }

  ghost predicate MachineInv(m: Machine)
  {
    && Inv(m.descs)
    && Pages(m.descs) !! m.free
    && (forall p | p in m.free :: p > 0 && p % PAGE_SIZE == 0)
  }

  lemma PagesAligned(descs: seq<Desc>, p: int)
    requires Core(descs) && p in Pages(descs)
    ensures p > 0 && p % PAGE_SIZE == 0
  {
  }

  lemma ApplyKeeps(m: Machine, op: Op)
    requires MachineInv(m) && Allowed(m, op)
    ensures MachineInv(Apply(m, op))
    ensures Pages(Apply(m, op).descs) + Apply(m, op).free == Pages(m.descs) + m.free
  {
    match op
    case AllocOp(size, page) => AllocKeepsInv(m.descs, size, page);
    case FreeOp(obj, size) =>
      FreeKeepsInv(m.descs, obj, size);
      var p := FreedPage(m.descs, obj);
      if p.Some? { PagesAligned(m.descs, p.value); }
  }

  /**
    Over every run of allocations and frees of live objects the invariant holds,
    no page is lost or both free and in use, the live objects never overlap, and
    the first descriptor whose page contains a live object is its owner.
  */
  lemma {:induction false} RunKeeps(m: Machine, ops: seq<Op>)
    requires MachineInv(m) && AllowedRun(m, ops)
    ensures MachineInv(Run(m, ops))
    ensures Pages(Run(m, ops).descs) + Run(m, ops).free == Pages(m.descs) + m.free
    decreases |ops|
  {
    if ops != [] {
      ApplyKeeps(m, ops[0]);
      RunKeeps(Apply(m, ops[0]), ops[1..]);
    }
  }

  ghost predicate Separate(o: (int, int), u: (int, int))
  {
    o == u || o.0 + o.1 <= u.0 || u.0 + u.1 <= o.0
  }

  ghost predicate OwnerFound(descs: seq<Desc>, o: (int, int))
  {
    && o.0 >= 0
    && var k := First(descs, Around(o.0), 0);
       k < |descs| && Holds(descs[k], o.0) && descs[k].size == o.1
  }

  /** The size is a class and the address a multiple of it. */
  ghost predicate Aligned(o: (int, int))
  {
    o.1 in CLASSES && o.1 > 0 && o.0 % o.1 == 0
  }

  lemma RunObjects(m: Machine, ops: seq<Op>)
    requires MachineInv(m) && AllowedRun(m, ops)
    ensures forall o | o in Objects(Run(m, ops).descs) :: Aligned(o)
    ensures forall o, u | o in Objects(Run(m, ops).descs) && u in Objects(Run(m, ops).descs) :: Separate(o, u)
    ensures forall o | o in Objects(Run(m, ops).descs) :: OwnerFound(Run(m, ops).descs, o)
  {
    RunKeeps(m, ops);
    var descs := Run(m, ops).descs;
    forall o, u | o in Objects(descs) && u in Objects(descs)
      ensures Separate(o, u)
    {
      if o.0 <= u.0 { ObjectsDisjoint(descs, o, u); } else { ObjectsDisjoint(descs, u, o); }
    }
    forall o | o in Objects(descs)
      ensures OwnerFound(descs, o) && Aligned(o)
    {
      var k :| 0 <= k < |descs| && Holds(descs[k], o.0) && descs[k].size == o.1;
      FirstIsOwner(descs, o.0, k);
      HeldAligned(descs[k], o.0);
      ClassFacts(o.1);
    }
  }

  /** Right after an allocation, freeing the object gives a page back exactly if one was taken. */
  lemma PageComesBack(descs: seq<Desc>, size: nat, page: nat)
    requires Inv(descs) && (TakesPage(descs, size) ==> PageOk(descs, page)) && 0 < size <= PAGE_SIZE
    ensures AllocResult(descs, size, page).0.Some?
    ensures FreedPage(AllocResult(descs, size, page).1, AllocResult(descs, size, page).0.value) ==
              if TakesPage(descs, size) then Some(page) else None
  {
    var c := ClassOf(size);
    var t := Target(descs, c, page);
    TargetFacts(descs, c, page);
    PlaceFacts(t.0[t.1]);
    AllocKeepsInv(descs, size, page);
    var ds := AllocResult(descs, size, page).1;
    FirstIsOwner(ds, Slot(t.0[t.1]), t.1);
    ClassFacts(c);
  }

  /** Freeing what was just allocated restores the set of live objects. */
  lemma FreeUndoesAlloc(descs: seq<Desc>, size: nat, page: nat)
    requires Inv(descs) && (TakesPage(descs, size) ==> PageOk(descs, page)) && 0 < size <= PAGE_SIZE
    ensures AllocResult(descs, size, page).0.Some?
    ensures var (obj, next) := AllocResult(descs, size, page);
            Objects(FreeResult(next, obj.value)) == Objects(descs)
  {
    AllocAdds(descs, size, page);
    AllocKeepsInv(descs, size, page);
    FreeRemoves(AllocResult(descs, size, page).1, AllocResult(descs, size, page).0.value, ClassOf(size));
  }

  /** It also restores the free pages of the page allocator. */
  lemma FreeUndoesAllocPages(m: Machine, size: nat, page: nat)
    requires MachineInv(m) && (TakesPage(m.descs, size) ==> page in m.free) && 0 < size <= PAGE_SIZE
    ensures AllocResult(m.descs, size, page).0.Some?
    ensures var free := FreeOp(AllocResult(m.descs, size, page).0.value, ClassOf(size));
            Allowed(Apply(m, AllocOp(size, page)), free) && Apply(Apply(m, AllocOp(size, page)), free).free == m.free
  {
    AllocAdds(m.descs, size, page);
    PageComesBack(m.descs, size, page);
    var next := Apply(m, AllocOp(size, page));
    assert next.descs == AllocResult(m.descs, size, page).1;
    assert TakesPage(m.descs, size) ==> next.free + iset{page} == m.free;
  }

  // ----- the allocator itself

  lemma SameBits(s: Status, t: Status, pos: nat)
    requires pos < UNITS && !IsSet(s, pos) && !IsSet(t, pos)
    requires forall j: nat | j < UNITS && j != pos :: IsSet(s, j) <==> IsSet(t, j)
    ensures s == t
  {
    forall j: nat | j < UNITS
      ensures s[j] == t[j]
    {
      assert IsSet(s, j) <==> IsSet(t, j);
    }
  }

  datatype FreeOutcome = Panicked | Freed(page: Option<nat>)

  class SlabAllocator {
    var descs: seq<Desc>

    constructor ()
      ensures descs == [] && Inv(descs)
    {
      descs := [];
    }

    /** The list walk shared by every routine. */
    method Find(w: Want) returns (i: nat)
      ensures i == First(descs, w, 0)
    {
      i := 0;
      while i < |descs| && !Matches(descs[i], w)
        invariant i <= |descs| && First(descs, w, 0) == First(descs, w, i)
      {
        i := i + 1;
      }
    }

    /** Find and set the first clear bit at the stride of the size; returns its byte offset. */
    static method GetSpace(status: Status, size: nat) returns (r: Status, off: nat)
      requires size >= BIT_SIZE
      ensures var u := FreeUnit(status, size / BIT_SIZE, 0);
              off == BIT_SIZE * u && r == if u < UNITS then Flip(status, u) else status
    {
      var leap := size / BIT_SIZE;
      var i := 0;
      r := status;
      while i * BIT_SIZE < PAGE_SIZE
        invariant 0 <= i && r == status && FreeUnit(status, leap, 0) == FreeUnit(status, leap, i)
        decreases UNITS - i
      {
        if !IsSet(status, i) {
          r := Flip(status, i);
          break;
        }
        i := i + leap;
      }
      off := BIT_SIZE * i;
    }

    static method RoundUp(size: nat) returns (c: nat)
      requires 0 < size <= PAGE_SIZE
      ensures c == ClassOf(size)
    {
      var i := |CLASSES| - 1;
      while CLASSES[i] < size
        invariant 0 <= i < |CLASSES| && (forall j | i < j < |CLASSES| :: CLASSES[j] < size)
        invariant ClassFrom(size, |CLASSES| - 1) == ClassFrom(size, i)
      {
        i := i - 1;
      }
      c := CLASSES[i];
    }

    method Alloc(size: nat, page: nat) returns (obj: Option<nat>)
      modifies this
      ensures (obj, descs) == AllocResult(old(descs), size, page)
      ensures obj.None? ==> descs == old(descs)
    {
      if size == 0 || size > PAGE_SIZE { return None; }
      var c := RoundUp(size);
      var i := Find(Room(c));
      if i == |descs| {
        i := Find(Vacant);
        if page == 0 { return None; }
        if i == |descs| {
          i := 0;
          descs := [Fresh(page, c)] + descs;
        } else {
          descs := descs[i := Fresh(page, c)];
        }
      }
      ClassFacts(c);
      assert (descs, i) == Target(old(descs), c, page);
      var d := descs[i];
      var status, off := GetSpace(d.status, c);
      var next := Desc(d.page, d.size, d.num + 1, status);
      assert next == Place(d) && d.page + off == Slot(d);
      descs := descs[i := next];
      obj := Some(d.page + off);
    }

    /** Afterwards the bit is clear, whatever it was, and every other bit is as before. */
    static method FreeSpace(status: Status, pos: nat) returns (r: Status)
      requires pos < UNITS
      ensures !IsSet(r, pos) && forall j: nat | j < UNITS && j != pos :: IsSet(r, j) <==> IsSet(status, j)
    {
      r := status;
      if IsSet(status, pos) {
        r := Flip(status, pos);
      }
    }

    /** Null is ignored; an address outside every page of the list is a panic. */
    method Free(obj: nat) returns (r: FreeOutcome)
      modifies this
      ensures obj == 0 ==> descs == old(descs) && r == Freed(None)
      ensures r.Panicked? <==> obj != 0 && forall i | 0 <= i < |old(descs)| :: !Matches(old(descs)[i], Around(obj))
      ensures obj != 0 ==> descs == FreeResult(old(descs), obj)
      ensures obj != 0 && r.Freed? ==> r.page == FreedPage(old(descs), obj)
    {
      if obj == 0 { return Freed(None); }
      var i := Find(Around(obj));
      if i == |descs| { return FreeOutcome.Panicked; }
      var d := descs[i];
      var status := FreeSpace(d.status, (obj - d.page) / BIT_SIZE);
      var num, size := d.num - 1, d.size;
      r := Freed(None);
      if num == 0 {
        size, r := PG_EMPTY, Freed(Some(d.page));
      }
      var next := Desc(d.page, size, num, status);
      SameBits(status, Remove(d, obj).status, (obj - d.page) / BIT_SIZE);
      descs := descs[i := next];
    }

    /** The size of the object at an address, and 0 outside every page of the list. */
    method Size(obj: nat) returns (r: nat)
      ensures Inv(descs) ==> forall s | (obj, s) in Objects(descs) :: r == s
      ensures (forall i | 0 <= i < |descs| :: !Matches(descs[i], Around(obj))) ==> r == 0
    {
      var i := Find(Around(obj));
      if Inv(descs) {
        forall s | (obj, s) in Objects(descs)
          ensures i < |descs| && descs[i].size == s
        {
          var k := FreeTarget(descs, obj, s);
        }
      }
      r := if i < |descs| then descs[i].size else 0;
    }
  }
}
