/**
  memmove over one byte-addressed memory: copy bytes up to a word boundary, then
  whole words, then the remaining bytes, forwards or backwards according to the
  order of the two addresses. A word is a `long` of the 32-bit target.
*/
module Memmove {

  type Byte = bv8

  const WSIZE: nat := 4

  /** `m` is `m0` after the bytes [lo, hi) took their values from `shift` bytes further on. */
  ghost predicate Moved(m: seq<Byte>, m0: seq<Byte>, lo: int, hi: int, shift: int)
    requires |m| == |m0| && 0 <= lo <= hi <= |m0| && 0 <= lo + shift && hi + shift <= |m0|
  {
    && (forall i {:trigger m[i]} | lo <= i < hi :: m[i] == m0[i + shift])
    && (forall i {:trigger m[i]} | 0 <= i < |m| && !(lo <= i < hi) :: m[i] == m0[i])
  }

  /** `next` is `m` after one store of n bytes at `dst`, loaded from dst + shift. */
  ghost predicate Copied(next: seq<Byte>, m: seq<Byte>, dst: int, n: nat, shift: int)
    requires |next| == |m| && 0 <= dst && 0 <= dst + shift && dst + n + shift <= |m| && dst + n <= |m|
  {
    && (forall i {:trigger next[i]} | dst <= i < dst + n :: next[i] == m[i + shift])
    && (forall i {:trigger next[i]} | 0 <= i < |m| && !(dst <= i < dst + n) :: next[i] == m[i])
  }

  /** Going up with the source above, the bytes loaded have not been overwritten yet. */
  lemma ExtendUp(next: seq<Byte>, m: seq<Byte>, m0: seq<Byte>, lo: nat, hi: nat, n: nat, shift: int)
    requires |next| == |m| == |m0| && lo <= hi && shift > 0 && hi + n + shift <= |m|
    requires Moved(m, m0, lo, hi, shift) && Copied(next, m, hi, n, shift)
    ensures Moved(next, m0, lo, hi + n, shift)
  {
  }

  /** Going down with the source below, likewise. */
  lemma ExtendDown(next: seq<Byte>, m: seq<Byte>, m0: seq<Byte>, lo: nat, hi: nat, n: nat, shift: int)
    requires |next| == |m| == |m0| && n <= lo <= hi <= |m| && shift < 0 && 0 <= lo - n + shift
    requires Moved(m, m0, lo, hi, shift) && Copied(next, m, lo - n, n, shift)
    ensures Moved(next, m0, lo - n, hi, shift)
  {
  }

  method CopyByte(mem: array<Byte>, dst: nat, src: nat)
    requires dst < mem.Length && src < mem.Length
    modifies mem
    ensures Copied(mem[..], old(mem[..]), dst, 1, src - dst)
  {
    mem[dst] := mem[src];
  }

  /** One aligned word load followed by one aligned word store. */
  method CopyWord(mem: array<Byte>, dst: nat, src: nat)
    requires dst % WSIZE == 0 && src % WSIZE == 0
    requires dst + WSIZE <= mem.Length && src + WSIZE <= mem.Length
    modifies mem
    ensures Copied(mem[..], old(mem[..]), dst, WSIZE, src - dst)
  {
    var word := mem[src..src + WSIZE];
    forall i | 0 <= i < WSIZE {
      mem[dst + i] := word[i];
    }
  }

  lemma AlignedNext(a: nat)
    requires a % WSIZE == 0
    ensures (a + WSIZE) % WSIZE == 0
  {
  }

  lemma AlignedPrev(a: nat)
    requires a % WSIZE == 0 && a >= WSIZE
    ensures (a - WSIZE) % WSIZE == 0
  {
  }

  /** How many single bytes a forward copy starts with: all of them if the low bits differ. */
  function LeadUp(src: nat, dst: nat, length: nat): (t: nat)
    requires length > 0
    ensures t <= length
    ensures t < length ==> (dst + t) % WSIZE == 0 && (src + t) % WSIZE == 0
  {
    if src % WSIZE == 0 && dst % WSIZE == 0 then 0
    else if src % WSIZE != dst % WSIZE || length < WSIZE then length
    else WSIZE - src % WSIZE
  }

  /** Likewise from the end addresses of a backward copy. */
  function LeadDown(src: nat, dst: nat, length: nat): (t: nat)
    requires 0 < length <= src && length <= dst
    ensures t <= length
    ensures t < length ==> (dst - t) % WSIZE == 0 && (src - t) % WSIZE == 0
  {
    if src % WSIZE == 0 && dst % WSIZE == 0 then 0
    else if src % WSIZE != dst % WSIZE || length <= WSIZE then length
    else src % WSIZE
  }

  lemma WordsAndRest(length: nat)
    ensures length == length / WSIZE * WSIZE + length % WSIZE
    ensures length / WSIZE > 0 <==> length >= WSIZE
  {
  }

  // The copying loops. Each extends the region already moved, whose far end is fixed.

  method BytesForward(mem: array<Byte>, dst0: nat, src0: nat, n: nat, ghost m0: seq<Byte>, ghost lo: nat,
                      ghost shift: int)
    requires shift > 0 && src0 == dst0 + shift && lo <= dst0 && src0 + n <= mem.Length == |m0|
    requires Moved(mem[..], m0, lo, dst0, shift)
    modifies mem
    ensures Moved(mem[..], m0, lo, dst0 + n, shift)
  {
    var dst, src, t := dst0, src0, n;
    while t > 0
      invariant dst == dst0 + n - t && src == dst + shift && 0 <= t <= n
      invariant Moved(mem[..], m0, lo, dst, shift)
    {
      ghost var m := mem[..];
      CopyByte(mem, dst, src);
      ExtendUp(mem[..], m, m0, lo, dst, 1, shift);
      dst, src := dst + 1, src + 1;
      t := t - 1;
    }
  }

  method WordUp(mem: array<Byte>, dst: nat, src: nat, ghost m0: seq<Byte>, ghost lo: nat, ghost shift: int)
    requires shift > 0 && src == dst + shift && lo <= dst && src + WSIZE <= mem.Length == |m0|
    requires dst % WSIZE == 0 && src % WSIZE == 0 && Moved(mem[..], m0, lo, dst, shift)
    modifies mem
    ensures Moved(mem[..], m0, lo, dst + WSIZE, shift)
    ensures (dst + WSIZE) % WSIZE == 0 && (src + WSIZE) % WSIZE == 0
  {
    ghost var m := mem[..];
    CopyWord(mem, dst, src);
    ExtendUp(mem[..], m, m0, lo, dst, WSIZE, shift);
    AlignedNext(dst);
    AlignedNext(src);
  }

  method WordsForward(mem: array<Byte>, dst0: nat, src0: nat, n: nat, ghost m0: seq<Byte>, ghost lo: nat,
                      ghost shift: int)
    requires shift > 0 && src0 == dst0 + shift && lo <= dst0 && src0 + n * WSIZE <= mem.Length == |m0|
    requires n > 0 ==> dst0 % WSIZE == 0 && src0 % WSIZE == 0
    requires Moved(mem[..], m0, lo, dst0, shift)
    modifies mem
    ensures Moved(mem[..], m0, lo, dst0 + n * WSIZE, shift)
  {
    var dst, src, t := dst0, src0, n;
    while t > 0
      invariant 0 <= t <= n && dst + t * WSIZE == dst0 + n * WSIZE && src == dst + shift && lo <= dst
      invariant t > 0 ==> dst % WSIZE == 0 && src % WSIZE == 0
      invariant Moved(mem[..], m0, lo, dst, shift)
    {
      WordUp(mem, dst, src, m0, lo, shift);
      dst, src := dst + WSIZE, src + WSIZE;
      t := t - 1;
    }
  }

  method BytesBackward(mem: array<Byte>, dst0: nat, src0: nat, n: nat, ghost m0: seq<Byte>, ghost hi: nat,
                       ghost shift: int)
    requires shift < 0 && src0 == dst0 + shift && n <= src0 && dst0 <= hi <= mem.Length == |m0|
    requires Moved(mem[..], m0, dst0, hi, shift)
    modifies mem
    ensures Moved(mem[..], m0, dst0 - n, hi, shift)
  {
    var dst, src, t := dst0, src0, n;
    while t > 0
      invariant dst == dst0 - n + t && src == dst + shift && 0 <= t <= n
      invariant Moved(mem[..], m0, dst, hi, shift)
    {
      ghost var m := mem[..];
      dst, src := dst - 1, src - 1;
      CopyByte(mem, dst, src);
      ExtendDown(mem[..], m, m0, dst + 1, hi, 1, shift);
      t := t - 1;
    }
  }

  method WordDown(mem: array<Byte>, dst: nat, src: nat, ghost m0: seq<Byte>, ghost hi: nat, ghost shift: int)
    requires shift < 0 && src == dst + shift && dst + WSIZE <= hi <= mem.Length == |m0|
    requires dst % WSIZE == 0 && src % WSIZE == 0 && Moved(mem[..], m0, dst + WSIZE, hi, shift)
    modifies mem
    ensures Moved(mem[..], m0, dst, hi, shift)
  {
    ghost var m := mem[..];
    CopyWord(mem, dst, src);
    ExtendDown(mem[..], m, m0, dst + WSIZE, hi, WSIZE, shift);
  }

  method WordsBackward(mem: array<Byte>, dst0: nat, src0: nat, n: nat, ghost m0: seq<Byte>, ghost hi: nat,
                       ghost shift: int)
    requires shift < 0 && src0 == dst0 + shift && n * WSIZE <= src0 && dst0 <= hi <= mem.Length == |m0|
    requires n > 0 ==> dst0 % WSIZE == 0 && src0 % WSIZE == 0
    requires Moved(mem[..], m0, dst0, hi, shift)
    modifies mem
    ensures Moved(mem[..], m0, dst0 - n * WSIZE, hi, shift)
  {
    var dst, src, t := dst0, src0, n;
    while t > 0
      invariant 0 <= t <= n && dst - t * WSIZE == dst0 - n * WSIZE && src == dst + shift && dst <= hi
      invariant t > 0 ==> dst % WSIZE == 0 && src % WSIZE == 0
      invariant Moved(mem[..], m0, dst, hi, shift)
    {
      AlignedPrev(dst);
      AlignedPrev(src);
      dst, src := dst - WSIZE, src - WSIZE;
      WordDown(mem, dst, src, m0, hi, shift);
      t := t - 1;
    }
  }

  method CopyForward(mem: array<Byte>, dst0: nat, src0: nat, length0: nat, ghost shift: int)
    requires shift > 0 && src0 == dst0 + shift && src0 + length0 <= mem.Length && length0 > 0
    modifies mem
    ensures Moved(mem[..], old(mem[..]), dst0, dst0 + length0, shift)
  {
    var dst, src, length := dst0, src0, length0;
    ghost var m0 := mem[..];
    var t := LeadUp(src, dst, length);
    length := length - t;
    BytesForward(mem, dst, src, t, m0, dst0, shift);
    dst, src := dst + t, src + t;
    WordsAndRest(length);
    t := length / WSIZE;
    WordsForward(mem, dst, src, t, m0, dst0, shift);
    dst, src := dst + t * WSIZE, src + t * WSIZE;
    t := length % WSIZE;
    assert dst + t == dst0 + length0;
    BytesForward(mem, dst, src, t, m0, dst0, shift);
    assert Moved(mem[..], m0, dst0, dst0 + length0, shift);
  }

  method CopyBackward(mem: array<Byte>, dst0: nat, src0: nat, length0: nat, ghost shift: int)
    requires shift < 0 && src0 == dst0 + shift && dst0 + length0 <= mem.Length && length0 > 0
    modifies mem
    ensures Moved(mem[..], old(mem[..]), dst0, dst0 + length0, shift)
  {
    var length := length0;
    var dst, src := dst0 + length, src0 + length;
    ghost var m0, hi := mem[..], dst;
    var t := LeadDown(src, dst, length);
    length := length - t;
    BytesBackward(mem, dst, src, t, m0, hi, shift);
    dst, src := dst - t, src - t;
    WordsAndRest(length);
    t := length / WSIZE;
    WordsBackward(mem, dst, src, t, m0, hi, shift);
    dst, src := dst - t * WSIZE, src - t * WSIZE;
    t := length % WSIZE;
    assert dst - t == dst0;
    BytesBackward(mem, dst, src, t, m0, hi, shift);
    assert Moved(mem[..], m0, dst0, dst0 + length0, shift);
  }

  lemma MovedMeans(m: seq<Byte>, m0: seq<Byte>, dst: nat, src: nat, n: nat)
    requires |m| == |m0| && dst + n <= |m| && src + n <= |m| && Moved(m, m0, dst, dst + n, src - dst)
    ensures m[dst..dst + n] == m0[src..src + n]
    ensures forall i | 0 <= i < |m| && !(dst <= i < dst + n) :: m[i] == m0[i]
  {
  }

  /**
    For every length, alignment and overlap, the destination receives the original
    source bytes and no other byte changes; word accesses are always aligned.
  */
  method Memmove(mem: array<Byte>, dst: nat, src: nat, length: nat) returns (r: nat)
    requires dst + length <= mem.Length && src + length <= mem.Length
    modifies mem
    ensures r == dst
    ensures mem[dst..dst + length] == old(mem[src..src + length])
    ensures forall i | 0 <= i < mem.Length && !(dst <= i < dst + length) :: mem[i] == old(mem[i])
  {
    if length != 0 && dst != src {
      ghost var m0 := mem[..];
      if dst < src {
        CopyForward(mem, dst, src, length, src - dst);
      } else {
        CopyBackward(mem, dst, src, length, src - dst);
      }
      MovedMeans(mem[..], m0, dst, src, length);
      assert mem[dst..dst + length] == mem[..][dst..dst + length];
    }
    r := dst;
  }
}
