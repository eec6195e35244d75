/** The bytes that a user program sees through the page table. */
module UserBytes {
  import opened Common
  import opened FramePool
  import opened PageTable
  import opened Space

  /** The byte at user address u, if its page is mapped. */
  ghost function UserByte(flat: map<nat, nat>, mem: Memory, u: nat): Option<Byte>
  {
    if u / PAGE_SIZE !in flat then None else ByteOf(mem, PteAddr(flat[u / PAGE_SIZE]), u % PAGE_SIZE)
  }

  ghost function ByteOf(mem: Memory, f: nat, off: nat): Option<Byte>
  {
    if f in mem && off < |mem[f]| then Some(mem[f][off]) else None
  }

  /** No two pages share a frame, and frames are frames. */
  ghost predicate OneToOne(flat: map<nat, nat>)
  {
    && (forall p | p in flat :: IsFrame(PteAddr(flat[p])))
    && (forall p, q | p in flat && q in flat && p != q :: PteAddr(flat[p]) != PteAddr(flat[q]))
  }

  lemma SpaceOneToOne(s: Space, free: set<nat>)
    requires SpaceInv(s, free)
    ensures OneToOne(Flat(s.dir))
  {
    var flat := Flat(s.dir);
    forall p | p in flat
      ensures IsFrame(PteAddr(flat[p]))
    {
      var v := AreaOf(s.vmas, flat, p);
    }
    forall p, q | p in flat && q in flat && p != q
      ensures PteAddr(flat[p]) != PteAddr(flat[q])
    {
      var v := AreaOf(s.vmas, flat, p);
      var w := AreaOf(s.vmas, flat, q);
      PagesDiffer(s.vmas, v, w);
    }
  }

  /** The area behind a mapped page. */
  lemma AreaOf(vmas: seq<Vma>, flat: map<nat, nat>, p: nat) returns (v: Vma)
    requires VmasOk(vmas) && Agrees(vmas, flat) && p in flat
    ensures v in vmas && VmaOk(v) && v.Page() == p && PteAddr(flat[p]) == v.pages.paddr
  {
    v :| v in vmas && v.Page() == p;
    assert MapsTo(flat, v);
  }

  /** The frames behind the mapped pages. */
  ghost function Backing(flat: map<nat, nat>): set<nat>
  {
    set p | p in flat :: PteAddr(flat[p])
  }

  lemma BackingIsData(s: Space, free: set<nat>)
    requires SpaceInv(s, free)
    ensures Backing(Flat(s.dir)) == DataFrames(s.vmas)
  {
  }

  ghost predicate AllMapped(flat: map<nat, nat>, a: nat, n: nat)
  {
    forall u: nat | InChunk(u, a, n) :: u / PAGE_SIZE in flat
  }

  /** Frames outside the set hold what they held. */
  ghost predicate SameOutside(mem0: Memory, mem: Memory, frames: set<nat>)
  {
    forall f | f in mem0 && f !in frames :: f in mem && mem[f] == mem0[f]
  }

  // ----- writing

  ghost predicate InChunk(u: int, a: nat, n: nat) { a <= u < a + n }

  /** The user sees exactly data[..n] written at a, and nothing else changed. */
  ghost predicate Wrote(flat: map<nat, nat>, mem0: Memory, mem: Memory, a: nat, data: seq<Byte>)
  {
    forall u: nat {:trigger UserByte(flat, mem, u)} ::
      UserByte(flat, mem, u) == if InChunk(u, a, |data|) then Some(data[u - a]) else UserByte(flat, mem0, u)
  }

  /** Writing into one frame changes one piece of one page. */
  lemma ChunkWritten(flat: map<nat, nat>, mem: Memory, a: nat, bytes: seq<Byte>)
    requires OneToOne(flat) && MemoryOk(mem) && a / PAGE_SIZE in flat && a % PAGE_SIZE + |bytes| <= PAGE_SIZE
    ensures var f := PteAddr(flat[a / PAGE_SIZE]);
            f in mem && |mem[f]| == PAGE_SIZE && Wrote(flat, mem, Stored(mem, f, a % PAGE_SIZE, bytes), a, bytes)
  {
  }

  /** Two pieces of a buffer written one after the other are one longer piece. */
  lemma WroteSlice(flat: map<nat, nat>, mem0: Memory, mem1: Memory, mem2: Memory, a: nat, s: nat, data: seq<Byte>,
                   k: nat, l: nat)
    requires s == a + k && k + l <= |data|
    requires Wrote(flat, mem0, mem1, a, data[..k]) && Wrote(flat, mem1, mem2, s, data[k..k + l])
    ensures Wrote(flat, mem0, mem2, a, data[..k + l])
  {
  }

  // ----- reading

  /** The n bytes that the user sees from a on. */
  ghost predicate Sees(flat: map<nat, nat>, mem: Memory, a: nat, data: seq<Byte>)
  {
    forall i | 0 <= i < |data| :: UserByte(flat, mem, a + i) == Some(data[i])
  }

  lemma ChunkRead(flat: map<nat, nat>, mem: Memory, a: nat, n: nat)
    requires OneToOne(flat) && MemoryOk(mem) && a / PAGE_SIZE in flat && a % PAGE_SIZE + n <= PAGE_SIZE
    ensures var f := PteAddr(flat[a / PAGE_SIZE]);
            f in mem && |mem[f]| == PAGE_SIZE && Sees(flat, mem, a, mem[f][a % PAGE_SIZE..a % PAGE_SIZE + n])
  {
  }

  lemma SeesMore(flat: map<nat, nat>, mem: Memory, a: nat, data: seq<Byte>, bytes: seq<Byte>)
    requires Sees(flat, mem, a, data) && Sees(flat, mem, a + |data|, bytes)
    ensures Sees(flat, mem, a, data + bytes)
  {
  }

  /** What is seen at a place is determined. */
  lemma SeenOnce(flat: map<nat, nat>, mem: Memory, a: nat, x: seq<Byte>, y: seq<Byte>)
    requires Sees(flat, mem, a, x) && Sees(flat, mem, a, y) && |x| == |y|
    ensures x == y
  {
  }

  lemma WroteSees(flat: map<nat, nat>, mem0: Memory, mem: Memory, a: nat, data: seq<Byte>)
    requires Wrote(flat, mem0, mem, a, data)
    ensures Sees(flat, mem, a, data)
  {
  }
}
