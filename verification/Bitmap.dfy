/**
  Word-at-a-time search and population count over a bitmap of 32-bit words. Bit
  positions returned to callers are 1-based, and 0 means that there is none.
*/
module Bitmap {
  import opened Words

  const BITS_PER_LONG: nat := 32

  predicate IsSet(bm: seq<Word>, j: nat)
    requires j < BITS_PER_LONG * |bm|
  {
    Bit(bm[j / BITS_PER_LONG], j % BITS_PER_LONG)
  }

  /** No bit of the map is set from lo up to hi. */
  ghost predicate NoneSet(bm: seq<Word>, lo: nat, hi: nat)
    requires hi <= BITS_PER_LONG * |bm|
  {
    forall j: nat | lo <= j < hi :: !IsSet(bm, j)
  }

  /** r is the 1-based position of the first set bit at or after `from` and below `size`, or 0. */
  ghost predicate IsNext(bm: seq<Word>, size: nat, from: nat, r: nat)
    requires size <= BITS_PER_LONG * |bm|
  {
    if r == 0 then NoneSet(bm, from, size)
    else from < r <= size && IsSet(bm, r - 1) && NoneSet(bm, from, r - 1)
  }

  /** tmp is word k of the map with every bit outside [lo, hi) cleared. */
  ghost predicate Masked(bm: seq<Word>, k: nat, lo: nat, hi: nat, tmp: Word)
    requires k < |bm|
  {
    forall i: nat | i < BITS_PER_LONG :: Bit(tmp, i) <==> lo <= i < hi && Bit(bm[k], i)
  }

  lemma WordBit(bm: seq<Word>, k: nat, i: nat)
    requires k < |bm| && i < BITS_PER_LONG
    ensures BITS_PER_LONG * k + i < BITS_PER_LONG * |bm|
    ensures IsSet(bm, BITS_PER_LONG * k + i) <==> Bit(bm[k], i)
  {
    assert (BITS_PER_LONG * k + i) / BITS_PER_LONG == k;
  }

  /** A masked word that is zero: nothing set in its range. */
  lemma ZeroWord(bm: seq<Word>, k: nat, lo: nat, hi: nat)
    requires k < |bm| && hi <= BITS_PER_LONG && Masked(bm, k, lo, hi, 0)
    ensures BITS_PER_LONG * k + hi <= BITS_PER_LONG * |bm|
    ensures NoneSet(bm, BITS_PER_LONG * k + lo, BITS_PER_LONG * k + hi)
  {
    forall j: nat | BITS_PER_LONG * k + lo <= j < BITS_PER_LONG * k + hi
      ensures !IsSet(bm, j)
    {
      WordBit(bm, k, j - BITS_PER_LONG * k);
      ZeroBit(j - BITS_PER_LONG * k);
    }
  }

  /** A masked word that is not zero: its lowest set bit is the answer. */
  lemma FoundInWord(bm: seq<Word>, size: nat, from: nat, k: nat, lo: nat, hi: nat, tmp: Word, f: nat)
    requires k < |bm| && lo <= hi <= BITS_PER_LONG && Masked(bm, k, lo, hi, tmp) && IsLowestSet(tmp, f)
    requires BITS_PER_LONG * k + hi <= size <= BITS_PER_LONG * |bm| && from <= BITS_PER_LONG * k + lo
    requires NoneSet(bm, from, BITS_PER_LONG * k + lo)
    ensures IsNext(bm, size, from, BITS_PER_LONG * k + f)
  {
    WordBit(bm, k, f - 1);
    forall j: nat | from <= j < BITS_PER_LONG * k + f - 1
      ensures !IsSet(bm, j)
    {
      if j >= BITS_PER_LONG * k + lo { WordBit(bm, k, j - BITS_PER_LONG * k); }
    }
  }

  lemma WholeWord(bm: seq<Word>, k: nat)
    requires k < |bm|
    ensures Masked(bm, k, 0, BITS_PER_LONG, bm[k])
  {
  }

  /** `tmp & (~0UL >> (BITS_PER_LONG - n))` keeps the bits below n. */
  lemma KeepLow(bm: seq<Word>, k: nat, lo: nat, hi: nat, tmp: Word, n: nat)
    requires k < |bm| && n <= hi <= BITS_PER_LONG && Masked(bm, k, lo, hi, tmp)
    ensures Masked(bm, k, lo, n, And(tmp, Shr(ONES, BITS_PER_LONG - n)))
  {
    var mask := Shr(ONES, BITS_PER_LONG - n);
    forall i: nat | i < BITS_PER_LONG
      ensures Bit(And(tmp, mask), i) <==> lo <= i < n && Bit(bm[k], i)
    {
      AndBit(tmp, mask, i);
      ShrBit(ONES, BITS_PER_LONG - n, i);
      OnesBit(i + BITS_PER_LONG - n);
    }
  }

  /** `word & (~0UL << n)` drops the bits below n. */
  lemma DropLow(bm: seq<Word>, k: nat, n: nat)
    requires k < |bm|
    ensures Masked(bm, k, n, BITS_PER_LONG, And(bm[k], Shl(ONES, n)))
  {
    var mask := Shl(ONES, n);
    forall i: nat | i < BITS_PER_LONG
      ensures Bit(And(bm[k], mask), i) <==> n <= i < BITS_PER_LONG && Bit(bm[k], i)
    {
      AndBit(bm[k], mask, i);
      ShlBit(ONES, n, i);
      if i >= n { OnesBit(i - n); }
    }
  }

  /** The scan shared by both searches, from word k with `rest` bits left to look at. */
  method ScanWords(bm: seq<Word>, size: nat, ghost from: nat, k0: nat, rest0: nat) returns (r: nat)
    requires size <= BITS_PER_LONG * |bm| && BITS_PER_LONG * k0 + rest0 == size
    requires from <= BITS_PER_LONG * k0 && NoneSet(bm, from, BITS_PER_LONG * k0)
    ensures IsNext(bm, size, from, r)
  {
    var k, rest, result := k0, rest0, BITS_PER_LONG * k0;
    while rest >= BITS_PER_LONG
      invariant result == BITS_PER_LONG * k && result + rest == size && k0 <= k && rest >= 0
      invariant NoneSet(bm, from, result)
    {
      var tmp := bm[k];
      WholeWord(bm, k);
      if tmp != 0 {
        var f := Ffs(tmp);
        FoundInWord(bm, size, from, k, 0, BITS_PER_LONG, tmp, f);
        return result + f;
      }
      ZeroWord(bm, k, 0, BITS_PER_LONG);
      k, result, rest := k + 1, result + BITS_PER_LONG, rest - BITS_PER_LONG;
    }
    if rest == 0 { return 0; }
    WholeWord(bm, k);
    r := LastWord(bm, size, from, k, 0, rest, bm[k]);
  }

  /** The last, partial word: mask off what lies beyond the size. */
  method LastWord(bm: seq<Word>, size: nat, ghost from: nat, k: nat, ghost lo: nat, rest: nat, word: Word)
    returns (r: nat)
    requires k < |bm| && rest < BITS_PER_LONG && BITS_PER_LONG * k + rest == size && lo <= rest
    requires Masked(bm, k, lo, BITS_PER_LONG, word)
    requires from <= BITS_PER_LONG * k + lo && NoneSet(bm, from, BITS_PER_LONG * k + lo)
    ensures size <= BITS_PER_LONG * |bm| && IsNext(bm, size, from, r)
  {
    var tmp := And(word, Shr(ONES, BITS_PER_LONG - rest));
    KeepLow(bm, k, lo, BITS_PER_LONG, word, rest);
    if tmp == 0 {
      ZeroWord(bm, k, lo, rest);
      return 0;
    }
    var f := Ffs(tmp);
    FoundInWord(bm, size, from, k, lo, rest, tmp, f);
    r := BITS_PER_LONG * k + f;
  }

  method FindFirst(bm: seq<Word>, size: nat) returns (r: nat)
    requires size <= BITS_PER_LONG * |bm|
    ensures IsNext(bm, size, 0, r)
  {
    r := ScanWords(bm, size, 0, 0, size);
  }

  /** `offset0` is 1-based: the search starts at bit offset0 - 1, and offset 0 finds nothing. */
  method FindNext(bm: seq<Word>, size: nat, offset0: nat) returns (r: nat)
    requires size <= BITS_PER_LONG * |bm|
    ensures offset0 == 0 ==> r == 0
    ensures offset0 > 0 ==> IsNext(bm, size, offset0 - 1, r)
  {
    if offset0 == 0 { return 0; }
    var from := offset0 - 1;
    if from >= size { return 0; }
    var k := from / BITS_PER_LONG;
    var result := BITS_PER_LONG * k;
    var rest, offset := size - result, from % BITS_PER_LONG;
    if offset != 0 {
      var tmp := And(bm[k], Shl(ONES, offset));
      DropLow(bm, k, offset);
      if rest < BITS_PER_LONG {
        r := LastWord(bm, size, from, k, offset, rest, tmp);
        return;
      }
      if tmp != 0 {
        var f := Ffs(tmp);
        FoundInWord(bm, size, from, k, offset, BITS_PER_LONG, tmp, f);
        return result + f;
      }
      ZeroWord(bm, k, offset, BITS_PER_LONG);
      k, rest := k + 1, rest - BITS_PER_LONG;
    }
    r := ScanWords(bm, size, from, k, rest);
  }

  // ----- population count

  /** The number of set bits below n. */
  ghost function Weight(bm: seq<Word>, n: nat): (w: nat)
    requires n <= BITS_PER_LONG * |bm|
  {
    if n == 0 then 0 else Weight(bm, n - 1) + (if IsSet(bm, n - 1) then 1 else 0)
  }

  lemma {:induction false} OnesTop(w: Word, n: nat)
    ensures Ones(w, n + 1) == Ones(w, n) + (if Bit(w, n) then 1 else 0)
  {
    if n > 0 { OnesTop(Half(w), n - 1); }
  }

  lemma {:induction false} WeightInWord(bm: seq<Word>, k: nat, n: nat)
    requires k < |bm| && n <= BITS_PER_LONG
    ensures BITS_PER_LONG * k + n <= BITS_PER_LONG * |bm|
    ensures Weight(bm, BITS_PER_LONG * k + n) == Weight(bm, BITS_PER_LONG * k) + Ones(bm[k], n)
  {
    if n > 0 {
      WeightInWord(bm, k, n - 1);
      WordBit(bm, k, n - 1);
      OnesTop(bm[k], n - 1);
    }
  }

  lemma {:induction false} OnesMasked(w: Word, n: nat, m: nat)
    requires m <= 32
    ensures Ones(And(w, Pred(Shl(1, n))), m) == Ones(w, if m <= n then m else n)
  {
    if m > 0 {
      OnesMasked(w, n, m - 1);
      OnesTop(And(w, Pred(Shl(1, n))), m - 1);
      AndBit(w, Pred(Shl(1, n)), m - 1);
      LowMaskBit(n, m - 1);
      if m <= n { OnesTop(w, m - 1); }
    }
  }

  method CountBits(bm: seq<Word>, bits: nat) returns (w: nat)
    requires bits <= BITS_PER_LONG * |bm|
    ensures w == Weight(bm, bits)
  {
    w := 0;
    var lim := bits / BITS_PER_LONG;
    var k := 0;
    while k < lim
      invariant 0 <= k <= lim && w == Weight(bm, BITS_PER_LONG * k)
    {
      var h := Hweight(bm[k]);
      WeightInWord(bm, k, BITS_PER_LONG);
      w := w + h;
      k := k + 1;
    }
    var rest := bits % BITS_PER_LONG;
    if rest != 0 {
      var h := Hweight(And(bm[k], Pred(Shl(1, rest))));
      OnesMasked(bm[k], rest, BITS_PER_LONG);
      WeightInWord(bm, k, rest);
      w := w + h;
    }
  }

  // ----- stepping through a bitmap

  lemma {:induction false} WeightGap(bm: seq<Word>, lo: nat, hi: nat)
    requires lo <= hi <= BITS_PER_LONG * |bm| && NoneSet(bm, lo, hi)
    ensures Weight(bm, hi) == Weight(bm, lo)
  {
    if lo < hi { WeightGap(bm, lo, hi - 1); }
  }

  /** `visited` lists, in increasing order, the 1-based positions of the set bits below n. */
  ghost predicate Lists(bm: seq<Word>, visited: seq<nat>, n: nat)
    requires n <= BITS_PER_LONG * |bm|
  {
    && (forall i, j | 0 <= i < j < |visited| :: visited[i] < visited[j])
    && (forall p | p in visited :: 1 <= p <= n)
    && (forall j: nat | j < n :: IsSet(bm, j) <==> j + 1 in visited)
  }

  lemma ListsGap(bm: seq<Word>, visited: seq<nat>, lo: nat, hi: nat)
    requires lo <= hi <= BITS_PER_LONG * |bm| && NoneSet(bm, lo, hi) && Lists(bm, visited, lo)
    ensures Lists(bm, visited, hi) && Weight(bm, hi) == Weight(bm, lo)
  {
  }

  lemma ListsOne(bm: seq<Word>, visited: seq<nat>, n: nat)
    requires n < BITS_PER_LONG * |bm| && IsSet(bm, n) && Lists(bm, visited, n)
    ensures Lists(bm, visited + [n + 1], n + 1)
  {
    var next := visited + [n + 1];
    forall i, j | 0 <= i < j < |next|
      ensures next[i] < next[j]
    {
      assert visited[i] in visited;
    }
    forall j: nat | j < n + 1
      ensures IsSet(bm, j) <==> j + 1 in next
    {
      if j == n { assert next[|visited|] == n + 1; }
    }
  }

  /**
    Starting with the first set bit and asking for the next one after the last
    visits every set bit below `size` exactly once, in increasing order, and as
    many as the population count says.
  */
  method VisitAll(bm: seq<Word>, size: nat) returns (visited: seq<nat>)
    requires size <= BITS_PER_LONG * |bm|
    ensures Lists(bm, visited, size)
    ensures |visited| == Weight(bm, size)
  {
    visited := [];
    var last := 0;
    var r := FindFirst(bm, size);
    while r != 0
      invariant last <= size && IsNext(bm, size, last, r)
      invariant Lists(bm, visited, last) && |visited| == Weight(bm, last)
      decreases size - last
    {
      ListsGap(bm, visited, last, r - 1);
      ListsOne(bm, visited, r - 1);
      visited := visited + [r];
      last := r;
      r := FindNext(bm, size, last + 1);
    }
    ListsGap(bm, visited, last, size);
  }
}
