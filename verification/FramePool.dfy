/**
  What the address-space code sees of the allocators below it: a set of free page
  frames, a count of live kmalloc objects, and the contents of the frames.
*/
module FramePool {
  import opened Common

  type Byte = bv8

  /** Frames are page aligned and lie below 4 GiB, where a page table entry can name them. */
  predicate IsFrame(f: int) { 0 <= f < SPACE && f % PAGE_SIZE == 0 }

  type Memory = map<nat, seq<Byte>>

  /** Every frame holds one page of bytes. */
  ghost predicate MemoryOk(mem: Memory)
  {
    forall f: nat | IsFrame(f) :: f in mem && |mem[f]| == PAGE_SIZE
  }

  /** `mem` with bytes written at offset off of frame f. */
  function Stored(mem: Memory, f: nat, off: nat, bytes: seq<Byte>): Memory
    requires f in mem && off + |bytes| <= |mem[f]|
  {
    mem[f := mem[f][..off] + bytes + mem[f][off + |bytes|..]]
  }

  class Pool {
    var free: set<nat>
    var heap: nat

    /** How often kmalloc has failed. */
    var refused: nat

    var mem: Memory

    ghost predicate Valid()
      reads this`free
    {
      forall f | f in free :: IsFrame(f)
    }

    ghost predicate HasMemory()
      reads this`mem
    {
      MemoryOk(mem)
    }

    constructor (frames: set<nat>)
      requires forall f | f in frames :: IsFrame(f)
      ensures Valid() && HasMemory() && free == frames && heap == 0
    {
      free, heap, refused := frames, 0, 0;
      mem := map f: nat | f < SPACE && IsFrame(f) :: seq(PAGE_SIZE, _ => 0);
    }

    /** One free frame, or none exactly when there is no free frame. */
    method PgAlloc() returns (r: Option<nat>)
      requires Valid()
      modifies this`free
      ensures Valid()
      ensures r.None? <==> old(free) == {}
      ensures r.None? ==> free == old(free)
      ensures r.Some? ==> r.value in old(free) && IsFrame(r.value) && free == old(free) - {r.value}
      ensures r.Some? ==> |free| + 1 == |old(free)|
    {
      if free == {} { return None; }
      var f :| f in free;
      free := free - {f};
      r := Some(f);
    }

    method PgFree(f: nat)
      requires Valid() && IsFrame(f) && f !in free
      modifies this`free
      ensures Valid() && free == old(free) + {f}
    {
      free := free + {f};
    }

    /** kmalloc may fail at any time. */
    method KMalloc() returns (ok: bool)
      modifies this`heap, this`refused
      ensures heap == old(heap) + if ok then 1 else 0
      ensures refused == old(refused) + if ok then 0 else 1
    {
      ok := *;
      if ok { heap := heap + 1; } else { refused := refused + 1; }
    }

    /** Copy the contents of one frame to another. */
    method CopyFrame(dst: nat, src: nat)
      requires HasMemory() && IsFrame(dst) && IsFrame(src)
      modifies this`mem
      ensures HasMemory() && mem == old(mem)[dst := old(mem)[src]]
    {
      mem := mem[dst := mem[src]];
    }

    /** memmove from a buffer to l bytes inside one frame. */
    method Write(pa: nat, bytes: seq<Byte>)
      requires HasMemory() && IsFrame(pa - pa % PAGE_SIZE) && pa % PAGE_SIZE + |bytes| <= PAGE_SIZE
      modifies this`mem
      ensures HasMemory() && mem == Stored(old(mem), pa - pa % PAGE_SIZE, pa % PAGE_SIZE, bytes)
    {
      mem := Stored(mem, pa - pa % PAGE_SIZE, pa % PAGE_SIZE, bytes);
    }

    /** memmove of l bytes inside one frame to a buffer. */
    method Read(pa: nat, l: nat) returns (bytes: seq<Byte>)
      requires HasMemory() && IsFrame(pa - pa % PAGE_SIZE) && pa % PAGE_SIZE + l <= PAGE_SIZE
      ensures bytes == mem[pa - pa % PAGE_SIZE][pa % PAGE_SIZE..pa % PAGE_SIZE + l]
    {
      bytes := mem[pa - pa % PAGE_SIZE][pa % PAGE_SIZE..pa % PAGE_SIZE + l];
    }

    method KFree()
      requires heap > 0
      modifies this`heap
      ensures heap == old(heap) - 1
    {
      heap := heap - 1;
    }
  }
}
