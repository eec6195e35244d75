/**
  Bits of a 32-bit word: find-first-set by halving the window, and the population
  count by adding neighbouring fields in parallel. Shifts by a variable amount are
  repeated one-bit shifts.
*/
module Words {

  type Word = bv32

  const ONES: Word := 0xffff_ffff

  function Half(w: Word): Word { w >> 1 }

  function Double(w: Word): Word { w << 1 }

  function And(x: Word, y: Word): Word { x & y }

  predicate Low(w: Word) { w & 1 == 1 }

  /** Bit i of the word, counting from the least significant; false from 32 on. */
  predicate Bit(w: Word, i: nat)
  {
    if i == 0 then Low(w) else Bit(Half(w), i - 1)
  }

  function Shr(w: Word, k: nat): Word
  {
    if k == 0 then w else Shr(Half(w), k - 1)
  }

  function Shl(w: Word, k: nat): Word
  {
    if k == 0 then w else Double(Shl(w, k - 1))
  }

  /** The number of set bits among the low n. */
  ghost function Ones(w: Word, n: nat): nat
  {
    if n == 0 then 0 else (if Low(w) then 1 else 0) + Ones(Half(w), n - 1)
  }

  // ----- shifts and masks

  lemma {:induction false} ShrBit(w: Word, k: nat, i: nat)
    ensures Bit(Shr(w, k), i) <==> Bit(w, i + k)
    decreases k
  {
    if k > 0 { ShrBit(Half(w), k - 1, i); }
  }

  lemma {:induction false} ShrShr(w: Word, j: nat, k: nat)
    ensures Shr(Shr(w, j), k) == Shr(w, j + k)
    decreases j
  {
    if j > 0 { ShrShr(Half(w), j - 1, k); }
  }

  lemma ShiftFacts(w: Word)
    ensures (w >> 1) >> 1 == w >> 2 && (w >> 2) >> 2 == w >> 4 && (w >> 4) >> 4 == w >> 8
    ensures (w >> 8) >> 8 == w >> 16 && (w >> 16) >> 16 == 0
  {
  }

  lemma Shr2(w: Word)
    ensures Shr(w, 2) == w >> 2
  {
    ShiftFacts(w);
    assert Shr(w, 2) == Shr(Half(w), 1) == Shr(Half(Half(w)), 0);
  }

  lemma Shr4(w: Word)
    ensures Shr(w, 4) == w >> 4
  {
    ShrShr(w, 2, 2);
    Shr2(w);
    Shr2(w >> 2);
    ShiftFacts(w);
  }

  lemma Shr8(w: Word)
    ensures Shr(w, 8) == w >> 8
  {
    ShrShr(w, 4, 4);
    Shr4(w);
    Shr4(w >> 4);
    ShiftFacts(w);
  }

  lemma Shr16(w: Word)
    ensures Shr(w, 16) == w >> 16
  {
    ShrShr(w, 8, 8);
    Shr8(w);
    Shr8(w >> 8);
    ShiftFacts(w);
  }

  lemma AndHalf(x: Word, y: Word)
    ensures Half(And(x, y)) == And(Half(x), Half(y)) && (Low(And(x, y)) <==> Low(x) && Low(y))
  {
  }

  lemma {:induction false} AndBit(x: Word, y: Word, i: nat)
    ensures Bit(And(x, y), i) <==> Bit(x, i) && Bit(y, i)
    decreases i
  {
    AndHalf(x, y);
    if i > 0 { AndBit(Half(x), Half(y), i - 1); }
  }

  lemma {:induction false} ZeroBit(i: nat)
    ensures !Bit(0, i)
  {
    assert Half(0) == 0;
    if i > 0 { ZeroBit(i - 1); }
  }

  lemma BitsEnd(w: Word, i: nat)
    requires i >= 32
    ensures !Bit(w, i)
  {
    ShrShr(w, 16, 16);
    Shr16(w);
    Shr16(w >> 16);
    ShiftFacts(w);
    ShrBit(w, 32, i - 32);
    ZeroBit(i - 32);
  }

  lemma ByteOfOnes(w: Word, i: nat)
    requires And(w, 0xff) == 0xff && i < 8
    ensures Bit(w, i)
  {
    assert Bit(0xff, 0) && Bit(0xff, 1) && Bit(0xff, 2) && Bit(0xff, 3);
    assert Bit(0xff, 4) && Bit(0xff, 5) && Bit(0xff, 6) && Bit(0xff, 7);
    AndBit(w, 0xff, i);
  }

  lemma OnesBit(i: nat)
    ensures Bit(ONES, i) <==> i < 32
    ensures i < 16 ==> Bit(0xffff, i)
  {
    if i >= 32 {
      BitsEnd(ONES, i);
    } else if i >= 16 {
      ShrBit(ONES, 16, i - 16);
      Shr16(ONES);
      OnesBit(i - 16);
    } else if i >= 8 {
      ShrBit(ONES, 8, i - 8);
      Shr8(ONES);
      ByteOfOnes(ONES >> 8, i - 8);
      ShrBit(0xffff, 8, i - 8);
      Shr8(0xffff);
      ByteOfOnes(0xff, i - 8);
    } else {
      ByteOfOnes(ONES, i);
      ByteOfOnes(0xffff, i);
    }
  }

  lemma DoubleFacts(w: Word)
    ensures Half(Double(w)) == And(w, 0x7fff_ffff) && !Low(Double(w))
    ensures Half(OddDouble(w)) == And(w, 0x7fff_ffff) && Low(OddDouble(w))
    ensures Half(ONES) == 0x7fff_ffff
  {
  }

  function Pred(w: Word): Word { w - 1 }

  function OddDouble(w: Word): Word { Double(w) + 1 }

  lemma PredDouble(w: Word)
    ensures Pred(Double(w)) == OddDouble(Pred(w))
  {
  }

  lemma DoubleBit(w: Word, i: nat)
    requires i < 32
    ensures Bit(Double(w), i) <==> i > 0 && Bit(w, i - 1)
    ensures Bit(OddDouble(w), i) <==> i == 0 || Bit(w, i - 1)
  {
    DoubleFacts(w);
    if i > 0 {
      AndBit(w, 0x7fff_ffff, i - 1);
      OnesBit(i);
      assert Bit(ONES, i) == Bit(Half(ONES), i - 1);
    }
  }

  lemma {:induction false} ShlBit(w: Word, k: nat, i: nat)
    requires i < 32
    ensures Bit(Shl(w, k), i) <==> i >= k && Bit(w, i - k)
  {
    if k > 0 {
      DoubleBit(Shl(w, k - 1), i);
      if i > 0 { ShlBit(w, k - 1, i - 1); }
    }
  }

  /** The mask `(1 << k) - 1` keeps the low k bits. */
  lemma {:induction false} LowMaskBit(k: nat, i: nat)
    requires i < 32
    ensures Bit(Pred(Shl(1, k)), i) <==> i < k
  {
    if k == 0 {
      ZeroBit(i);
    } else {
      PredDouble(Shl(1, k - 1));
      DoubleBit(Pred(Shl(1, k - 1)), i);
      if i > 0 { LowMaskBit(k - 1, i - 1); }
    }
  }

  // ----- find first set

  /** The window below 2^k is empty: drop it and look higher up. */
  lemma SkipZeros(w: Word, mask: Word, k: nat)
    requires And(w, mask) == 0 && forall i: nat | i < k :: Bit(mask, i)
    ensures forall i: nat | i < k :: !Bit(w, i)
  {
    forall i: nat | i < k
      ensures !Bit(w, i)
    {
      AndBit(w, mask, i);
      ZeroBit(i);
    }
  }

  lemma MaskBits()
    ensures forall i: nat | i < 16 :: Bit(0xffff, i)
    ensures forall i: nat | i < 8 :: Bit(0xff, i)
    ensures forall i: nat | i < 4 :: Bit(0xf, i)
    ensures forall i: nat | i < 2 :: Bit(0x3, i)
  {
    forall i: nat | i < 16 ensures Bit(0xffff, i) { OnesBit(i); }
    forall i: nat | i < 8 ensures Bit(0xff, i) { ByteOfOnes(0xff, i); }
    assert Bit(0xf, 0) && Bit(0xf, 1) && Bit(0xf, 2) && Bit(0xf, 3);
    assert Bit(0x3, 0) && Bit(0x3, 1);
  }

  /** `num - 1` low bits of w0 are clear and `word` is what remains above them. */
  ghost predicate Skipped(w0: Word, word: Word, num: nat)
  {
    && num >= 1
    && word == Shr(w0, num - 1)
    && (forall i: nat | i < num - 1 :: !Bit(w0, i))
  }

  lemma SkipStep(w0: Word, word: Word, num: nat, mask: Word, k: nat, next: Word)
    requires Skipped(w0, word, num) && And(word, mask) == 0 && next == Shr(word, k)
    requires forall i: nat | i < k :: Bit(mask, i)
    ensures Skipped(w0, next, num + k)
  {
    SkipZeros(word, mask, k);
    ShrShr(w0, num - 1, k);
    forall i: nat | i < num + k - 1
      ensures !Bit(w0, i)
    {
      if i >= num - 1 { ShrBit(w0, num - 1, i - (num - 1)); }
    }
  }

  lemma WindowFacts(w: Word)
    ensures w != 0 && And(w, 0xffff) == 0 ==> And(w >> 16, 0xffff) != 0
    ensures And(w, 0xffff) != 0 && And(w, 0xff) == 0 ==> And(w >> 8, 0xff) != 0
    ensures And(w, 0xff) != 0 && And(w, 0xf) == 0 ==> And(w >> 4, 0xf) != 0
    ensures And(w, 0xf) != 0 && And(w, 0x3) == 0 ==> And(w >> 2, 0x3) != 0
    ensures And(w, 0x3) != 0 && !Low(w) ==> Low(Half(w))
  {
  }

  /** w has a set bit and r is the 1-based position of the lowest one. */
  ghost predicate IsLowestSet(w: Word, r: nat)
  {
    1 <= r <= 32 && Bit(w, r - 1) && forall i: nat | i < r - 1 :: !Bit(w, i)
  }

  lemma LowestSetFound(w0: Word, word: Word, num: nat)
    requires Skipped(w0, word, num) && Low(word)
    ensures IsLowestSet(w0, num)
  {
    ShrBit(w0, num - 1, 0);
    if num > 32 { BitsEnd(w0, num - 1); }
  }

  /** Find first set: 0 for the zero word, otherwise the 1-based position of the lowest set bit. */
  method Ffs(w0: Word) returns (num: nat)
    ensures w0 == 0 ==> num == 0
    ensures w0 != 0 ==> IsLowestSet(w0, num)
  {
    var word := w0;
    num := 1;
    if word == 0 { return 0; }
    MaskBits();
    WindowFacts(word);
    if And(word, 0xffff) == 0 {
      Shr16(word);
      SkipStep(w0, word, num, 0xffff, 16, word >> 16);
      num, word := num + 16, word >> 16;
    }
    WindowFacts(word);
    if And(word, 0xff) == 0 {
      Shr8(word);
      SkipStep(w0, word, num, 0xff, 8, word >> 8);
      num, word := num + 8, word >> 8;
    }
    WindowFacts(word);
    if And(word, 0xf) == 0 {
      Shr4(word);
      SkipStep(w0, word, num, 0xf, 4, word >> 4);
      num, word := num + 4, word >> 4;
    }
    WindowFacts(word);
    if And(word, 0x3) == 0 {
      Shr2(word);
      SkipStep(w0, word, num, 0x3, 2, word >> 2);
      num, word := num + 2, word >> 2;
    }
    WindowFacts(word);
    if !Low(word) {
      LastSkip(w0, word, num);
      num, word := num + 1, Half(word);
    }
    LowestSetFound(w0, word, num);
  }

  lemma LastSkip(w0: Word, word: Word, num: nat)
    requires Skipped(w0, word, num) && !Low(word)
    ensures Skipped(w0, Half(word), num + 1)
  {
    ShrShr(w0, num - 1, 1);
    assert Shr(word, 1) == Shr(Half(word), 0);
    ShrBit(w0, num - 1, 0);
  }

  // ----- population count

  function Pairs(w: Word): Word { w - ((w >> 1) & 0x5555_5555) }

  function Nibbles(w: Word): Word { (w & 0x3333_3333) + ((w >> 2) & 0x3333_3333) }

  function Bytes(w: Word): Word { (w + (w >> 4)) & 0x0f0f_0f0f }

  function LowBit(w: Word): Word { w & 1 }

  function Sum2(w: Word): Word { LowBit(w) + LowBit(Half(w)) }

  function Sum4(w: Word): Word { Sum2(w) + Sum2(w >> 2) }

  function Sum8(w: Word): Word { Sum4(w) + Sum4(w >> 4) }

  lemma AddSmall(x: Word, y: Word)
    requires x <= 16 && y <= 16
    ensures (x + y) as int == x as int + y as int
  {
  }

  lemma SumBounds(w: Word)
    ensures LowBit(w) == (if Low(w) then 1 else 0) && LowBit(w) <= 1
    ensures Sum2(w) <= 2 && Sum4(w) <= 4
  {
  }

  lemma {:induction false} OnesAdd(w: Word, a: nat, b: nat)
    ensures Ones(w, a + b) == Ones(w, a) + Ones(Shr(w, a), b)
    decreases a
  {
    if a > 0 { OnesAdd(Half(w), a - 1, b); }
  }

  lemma Ones2(w: Word)
    ensures Ones(w, 2) == Sum2(w) as int
  {
    var h := Half(w);
    assert Ones(w, 2) == (if Low(w) then 1 else 0) + Ones(h, 1);
    assert Ones(h, 1) == (if Low(h) then 1 else 0) + Ones(Half(h), 0);
    SumBounds(w);
    SumBounds(h);
    AddSmall(LowBit(w), LowBit(h));
  }

  lemma Ones4(w: Word)
    ensures Ones(w, 4) == Sum4(w) as int
  {
    OnesAdd(w, 2, 2);
    Shr2(w);
    Ones2(w);
    Ones2(w >> 2);
    SumBounds(w);
    SumBounds(w >> 2);
    AddSmall(Sum2(w), Sum2(w >> 2));
  }

  lemma Ones8(w: Word)
    ensures Ones(w, 8) == Sum8(w) as int
  {
    OnesAdd(w, 4, 4);
    Shr4(w);
    Ones4(w);
    Ones4(w >> 4);
    SumBounds(w);
    SumBounds(w >> 4);
    AddSmall(Sum4(w), Sum4(w >> 4));
  }

  // Each byte of the third stage holds the count of the corresponding byte of the word.

  lemma Byte0(w: Word)
    ensures Bytes(Nibbles(Pairs(w))) & 0xff == Sum8(w)
  {
  }

  lemma Byte1(w: Word)
    ensures (Bytes(Nibbles(Pairs(w))) >> 8) & 0xff == Sum8(w >> 8)
  {
  }

  lemma Byte2(w: Word)
    ensures (Bytes(Nibbles(Pairs(w))) >> 16) & 0xff == Sum8(w >> 16)
  {
  }

  lemma Byte3(w: Word)
    ensures (Bytes(Nibbles(Pairs(w))) >> 24) & 0xff == Sum8(w >> 24)
  {
  }

  lemma ByteCount0(w: Word)
    ensures (Bytes(Nibbles(Pairs(w))) & 0xff) as int == Ones(w, 8)
  {
    Byte0(w);
    Ones8(w);
  }

  lemma ByteCount1(w: Word)
    ensures ((Bytes(Nibbles(Pairs(w))) >> 8) & 0xff) as int == Ones(w >> 8, 8)
  {
    Byte1(w);
    Ones8(w >> 8);
  }

  lemma ByteCount2(w: Word)
    ensures ((Bytes(Nibbles(Pairs(w))) >> 16) & 0xff) as int == Ones(w >> 16, 8)
  {
    Byte2(w);
    Ones8(w >> 16);
  }

  lemma ByteCount3(w: Word)
    ensures ((Bytes(Nibbles(Pairs(w))) >> 24) & 0xff) as int == Ones(w >> 24, 8)
  {
    Byte3(w);
    Ones8(w >> 24);
  }

  lemma BoundedOnes(w: Word, n: nat)
    ensures Ones(w, n) <= n
  {
  }

  lemma FromInt(x: Word)
    ensures x as int <= 8 ==> x <= 8
  {
  }

  /** The first three stages: four byte-sized counts. */
  method ByteCounts(w: Word) returns (x: Word)
    ensures (x & 0xff) as int == Ones(w, 8) && ((x >> 8) & 0xff) as int == Ones(w >> 8, 8)
    ensures ((x >> 16) & 0xff) as int == Ones(w >> 16, 8) && ((x >> 24) & 0xff) as int == Ones(w >> 24, 8)
  {
    x := Bytes(Nibbles(Pairs(w)));
    ByteCount0(w);
    ByteCount1(w);
    ByteCount2(w);
    ByteCount3(w);
  }

  /** The last two stages add the four bytes up. */
  method AddUp(x: Word) returns (r: nat)
    requires (x & 0xff) as int <= 8 && ((x >> 8) & 0xff) as int <= 8
    requires ((x >> 16) & 0xff) as int <= 8 && ((x >> 24) & 0xff) as int <= 8
    ensures r == (x & 0xff) as int + ((x >> 8) & 0xff) as int + ((x >> 16) & 0xff) as int + ((x >> 24) & 0xff) as int
  {
    var y := x + (x >> 8);
    r := ((y + (y >> 16)) & 0xff) as int;
    FromInt(x & 0xff);
    FromInt((x >> 8) & 0xff);
    FromInt((x >> 16) & 0xff);
    FromInt((x >> 24) & 0xff);
    AddAll(x, x & 0xff, (x >> 8) & 0xff, (x >> 16) & 0xff, (x >> 24) & 0xff, y);
  }

  lemma AddAll(x: Word, a: Word, b: Word, c: Word, d: Word, y: Word)
    requires x & 0xff == a && (x >> 8) & 0xff == b && (x >> 16) & 0xff == c && (x >> 24) & 0xff == d
    requires a <= 8 && b <= 8 && c <= 8 && d <= 8 && y == x + (x >> 8)
    ensures ((y + (y >> 16)) & 0xff) as int == a as int + b as int + c as int + d as int
  {
    AddStages(x, a, b, c, d, y);
    AddSums(a, b, c, d);
  }

  lemma AddStages(x: Word, a: Word, b: Word, c: Word, d: Word, y: Word)
    requires x & 0xff == a && (x >> 8) & 0xff == b && (x >> 16) & 0xff == c && (x >> 24) & 0xff == d
    requires a <= 8 && b <= 8 && c <= 8 && d <= 8 && y == x + (x >> 8)
    ensures (y + (y >> 16)) & 0xff == (a + b) + (c + d)
  {
  }

  lemma AddSums(a: Word, b: Word, c: Word, d: Word)
    requires a <= 8 && b <= 8 && c <= 8 && d <= 8
    ensures ((a + b) + (c + d)) as int == a as int + b as int + c as int + d as int
  {
    assert a + b <= 16 && c + d <= 16;
    AddSmall(a, b);
    AddSmall(c, d);
    AddSmall(a + b, c + d);
  }

  lemma OnesByBytes(w: Word)
    ensures Ones(w, 32) == Ones(w, 8) + Ones(w >> 8, 8) + Ones(w >> 16, 8) + Ones(w >> 24, 8)
  {
    OnesAdd(w, 16, 16);
    Shr16(w);
    OnesAdd(w, 8, 8);
    Shr8(w);
    OnesAdd(w >> 16, 8, 8);
    Shr8(w >> 16);
    assert (w >> 16) >> 8 == w >> 24;
  }

  /** The parallel sums count the set bits of the word. */
  method Hweight(w: Word) returns (r: nat)
    ensures r == Ones(w, 32)
  {
    var x := ByteCounts(w);
    OnesByBytes(w);
    BoundedOnes(w, 8);
    BoundedOnes(w >> 8, 8);
    BoundedOnes(w >> 16, 8);
    BoundedOnes(w >> 24, 8);
    r := AddUp(x);
  }
}
