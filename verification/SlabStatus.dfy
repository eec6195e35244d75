/**
  The status bit array of a slab page: one bit per 16-byte unit, of which only
  those at multiples of the object size are used.
*/
module SlabStatus {
  import opened Common

  const BIT_SIZE: nat := 0x10
  const UNITS: nat := 256

  type Status = s: seq<bool> | |s| == 256 witness seq(256, _ => false)

  predicate IsSet(s: Status, i: nat)
    requires i < UNITS
  {
    s[i]
  }

  /** The `setbit` macro: it flips the bit. */
  function Flip(s: Status, i: nat): Status
    requires i < UNITS
  {
    s[i := !s[i]]
  }

  lemma FlipBit(s: Status, i: nat, j: nat)
    requires i < UNITS && j < UNITS
    ensures IsSet(Flip(s, i), j) <==> (IsSet(s, j) != (i == j))
  {
  }

  /** The number of set bits below n. */
  ghost function SetCount(s: Status, n: nat): (r: nat)
    requires n <= UNITS
    ensures r <= n
  {
    if n == 0 then 0 else SetCount(s, n - 1) + (if IsSet(s, n - 1) then 1 else 0)
  }

  lemma {:induction false} CountFlip(s: Status, i: nat, n: nat)
    requires i < UNITS && n <= UNITS
    ensures SetCount(Flip(s, i), n) ==
            if n <= i then SetCount(s, n) else if IsSet(s, i) then SetCount(s, n) - 1 else SetCount(s, n) + 1
  {
    if n > 0 {
      CountFlip(s, i, n - 1);
      FlipBit(s, i, n - 1);
    }
  }

  lemma {:induction false} CountZero(s: Status, n: nat)
    requires n <= UNITS && SetCount(s, n) == 0
    ensures forall i: nat | i < n :: !IsSet(s, i)
  {
    if n > 0 { CountZero(s, n - 1); }
  }

  lemma {:induction false} CountNone(s: Status, n: nat)
    requires n <= UNITS && forall i: nat | i < n :: !IsSet(s, i)
    ensures SetCount(s, n) == 0
  {
    if n > 0 { CountNone(s, n - 1); }
  }

  lemma {:induction false} CountMonotone(s: Status, m: nat, n: nat)
    requires m <= n <= UNITS
    ensures SetCount(s, m) <= SetCount(s, n)
  {
    if m < n { CountMonotone(s, m, n - 1); }
  }

  /** Bits are set only at multiples of `leap`. */
  ghost predicate OnStride(s: Status, leap: nat)
    requires leap > 0
  {
    forall i: nat | i < UNITS && IsSet(s, i) :: i % leap == 0
  }

  /** The first clear bit at or after i, stepping by `leap`; past the end if there is none. */
  ghost function FreeUnit(s: Status, leap: nat, i: nat): (r: nat)
    requires leap > 0
    ensures r >= i
    ensures r < UNITS ==> !IsSet(s, r)
    decreases UNITS - i
  {
    if i >= UNITS || !IsSet(s, i) then i else FreeUnit(s, leap, i + leap)
  }

  ghost predicate Divides(leap: nat)
  {
    leap in {1, 2, 4, 8, 16, 32, 64, 128, 256}
  }

  lemma StrideNext(i: nat, leap: nat)
    requires leap > 0 && i % leap == 0
    ensures (i + leap) % leap == 0
  {
    assert i + leap == (i / leap + 1) * leap;
    MultipleMod(i / leap + 1, leap);
  }

  lemma {:induction false} FreeUnitStride(s: Status, leap: nat, i: nat)
    requires leap > 0 && i % leap == 0
    ensures FreeUnit(s, leap, i) % leap == 0
    decreases UNITS - i
  {
    if i < UNITS && IsSet(s, i) {
      StrideNext(i, leap);
      FreeUnitStride(s, leap, i + leap);
    }
  }

  /** If no unit at the stride is clear from i on, there is a set bit in every stride after i. */
  lemma {:induction false} FullCounts(s: Status, leap: nat, i: nat, k: nat)
    requires leap > 0 && i + k * leap == UNITS && FreeUnit(s, leap, i) >= UNITS
    ensures SetCount(s, UNITS) >= SetCount(s, i) + k
    decreases k
  {
    if k > 0 {
      StrideSplit(k, leap);
      assert SetCount(s, i + 1) == SetCount(s, i) + 1;
      FullCounts(s, leap, i + leap, k - 1);
      CountMonotone(s, i + 1, i + leap);
    }
  }

  lemma StrideSplit(k: nat, leap: nat)
    requires k > 0
    ensures k * leap == (k - 1) * leap + leap && k * leap >= leap
  {
  }

  lemma WholeStrides(leap: nat)
    requires Divides(leap)
    ensures UNITS / leap * leap == UNITS
  {
  }

  lemma RoomForOne(r: nat, leap: nat)
    requires Divides(leap) && r % leap == 0 && r < UNITS
    ensures r + leap <= UNITS
  {
  }

  lemma CountVersusSlots(count: nat, k: nat, leap: nat)
    requires count >= k
    ensures count * leap >= k * leap
  {
  }

  /** As long as fewer than 4096 / size objects are live, a slot is found. */
  lemma SlotFound(s: Status, leap: nat)
    requires Divides(leap) && SetCount(s, UNITS) * leap < UNITS
    ensures FreeUnit(s, leap, 0) < UNITS && FreeUnit(s, leap, 0) % leap == 0
    ensures FreeUnit(s, leap, 0) + leap <= UNITS
  {
    FreeUnitStride(s, leap, 0);
    WholeStrides(leap);
    if FreeUnit(s, leap, 0) >= UNITS {
      FullCounts(s, leap, 0, UNITS / leap);
      CountVersusSlots(SetCount(s, UNITS), UNITS / leap, leap);
    }
    RoomForOne(FreeUnit(s, leap, 0), leap);
  }

  // ----- the bit array as it is stored: 32 bytes

  predicate ByteBit(b: bv8, k: nat)
    requires k < 8
  {
    (b >> k) & 1 == 1
  }

  /** The bits of a 32-byte array, as the `bit` macro reads them. */
  ghost function BitsOf(bytes: seq<bv8>): Status
    requires |bytes| == 32
  {
    seq(UNITS, i requires 0 <= i < UNITS => ByteBit(bytes[i / 8], i % 8))
  }

  /** The `setbit` macro on the byte array. */
  function FlipByteArray(bytes: seq<bv8>, i: nat): (r: seq<bv8>)
    requires |bytes| == 32 && i < UNITS
    ensures |r| == 32
  {
    bytes[i / 8 := bytes[i / 8] ^ (1 << (i % 8))]
  }

  lemma FlipByte(b: bv8, k: nat, j: nat)
    requires k < 8 && j < 8
    ensures ByteBit(b ^ (1 << k), j) <==> (ByteBit(b, j) != (j == k))
  {
    XorBit(b, 1 << k, j);
    OneBit(k, j);
  }

  lemma XorBit(b: bv8, c: bv8, j: nat)
    requires j < 8
    ensures ByteBit(b ^ c, j) <==> ByteBit(b, j) != ByteBit(c, j)
  {
    assert (b ^ c) >> j == (b >> j) ^ (c >> j);
  }

  lemma OneBit(k: nat, j: nat)
    requires k < 8 && j < 8
    ensures ByteBit(1 << k, j) <==> j == k
  {
  }

  lemma FlipInByte(bytes: seq<bv8>, p: nat, k: nat, q: nat, j: nat)
    requires p < |bytes| && q < |bytes| && k < 8 && j < 8
    ensures ByteBit(bytes[p := bytes[p] ^ (1 << k)][q], j) <==> (ByteBit(bytes[q], j) != (p == q && k == j))
  {
    if p == q { FlipByte(bytes[p], k, j); }
  }

  lemma FlipAt(bytes: seq<bv8>, i: nat, j: nat)
    requires |bytes| == 32 && i < UNITS && j < UNITS
    ensures ByteBit(FlipByteArray(bytes, i)[j / 8], j % 8) <==> (ByteBit(bytes[j / 8], j % 8) != (i == j))
  {
    FlipInByte(bytes, i / 8, i % 8, j / 8, j % 8);
  }

  /** Flipping a bit in place, in the byte that holds it, flips that bit and no other. */
  lemma FlipBytesRefines(bytes: seq<bv8>, i: nat)
    requires |bytes| == 32 && i < UNITS
    ensures BitsOf(FlipByteArray(bytes, i)) == Flip(BitsOf(bytes), i)
  {
    forall j: nat | j < UNITS
      ensures BitsOf(FlipByteArray(bytes, i))[j] == Flip(BitsOf(bytes), i)[j]
    {
      FlipAt(bytes, i, j);
    }
  }
}
