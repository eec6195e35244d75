/** Constants and small definitions shared by the memory-management modules. */
module Common {

  const PAGE_SIZE: nat := 4096

  /** The size of the 32-bit virtual address space; pointer arithmetic is modulo this. */
  const SPACE: nat := 0x1_0000_0000

  /** The start of the last page of the address space. */
  const TOP_PAGE: nat := 0xFFFF_F000

  /** A call returns a code, or the kernel stops in a failed assertion. */
  datatype Outcome = Returned(rc: int) | Panicked {
    predicate Ok() { this == Returned(0) }

    predicate Failed() { Returned? && rc < 0 }
  }

  datatype Option<+T> = None | Some(value: T)

  function Wrap(a: int): (r: nat) { a % SPACE }

  lemma MultipleMod(k: int, a: nat)
    requires a > 0
    ensures k * a % a == 0
  {
    var q, r := k * a / a, k * a % a;
    assert k * a == q * a + r;
    assert (k - q) * a == r;
    MultipleSize(k - q, a);
  }

  lemma MultipleSize(d: int, a: nat)
    ensures d >= 1 ==> d * a >= a
    ensures d <= -1 ==> d * a + a <= 0
  {
  }

  // ----- rounding with masks

  predicate PowerOfTwo(a: nat)
  {
    a == 1 || (a > 0 && a % 2 == 0 && PowerOfTwo(a / 2))
  }

  /** Bitwise or. */
  function BitOr(x: nat, y: nat): nat
    decreases x + y
  {
    if x == 0 && y == 0 then 0
    else 2 * BitOr(x / 2, y / 2) + (if x % 2 == 1 || y % 2 == 1 then 1 else 0)
  }

  /** The ALIGN_ABOVE macro: `((x - 1) | (a - 1)) + 1`, where 0 - 1 has all bits set. */
  function AlignAbove(x: nat, a: nat): nat
    requires a > 0
  {
    if x == 0 then 0 else BitOr(x - 1, a - 1) + 1
  }

  lemma {:induction false} OrZero(x: nat)
    ensures BitOr(x, 0) == x
  {
    if x > 0 { OrZero(x / 2); }
  }

  lemma HalfMod(y: nat, b: nat)
    requires b > 0
    ensures y % (2 * b) == 2 * (y / 2 % b) + y % 2
  {
    var h := y / 2;
    assert y == 2 * h + y % 2 && h == h / b * b + h % b;
    assert y == h / b * (2 * b) + (2 * (h % b) + y % 2);
    ModUnique(y, 2 * b, h / b, 2 * (h % b) + y % 2);
  }

  lemma ModUnique(y: nat, a: nat, q: nat, r: nat)
    requires a > 0 && r < a && y == q * a + r
    ensures y % a == r
  {
    assert (y / a - q) * a == r - y % a;
    MultipleSize(y / a - q, a);
  }

  /** With a power of two, `y | (a - 1)` sets the bits below it and keeps the rest. */
  lemma {:induction false} OrMask(y: nat, a: nat)
    requires PowerOfTwo(a)
    ensures BitOr(y, a - 1) == y - y % a + (a - 1)
  {
    if a == 1 {
      OrZero(y);
    } else {
      var b := a / 2;
      OrMask(y / 2, b);
      assert (a - 1) / 2 == b - 1 && BitOr(y, a - 1) == 2 * BitOr(y / 2, b - 1) + 1;
      HalfMod(y, b);
    }
  }

  /** Rounding up to a power of two gives the least multiple at or above. */
  lemma AlignAboveRounds(x: nat, a: nat)
    requires PowerOfTwo(a)
    ensures AlignAbove(x, a) % a == 0 && x <= AlignAbove(x, a) < x + a
  {
    if x > 0 {
      OrMask(x - 1, a);
      assert AlignAbove(x, a) == x - 1 - (x - 1) % a + a;
      NextMultiple(x - 1, a);
    }
  }

  lemma NextMultiple(y: nat, a: nat)
    requires a > 0
    ensures (y - y % a + a) % a == 0 && y < y - y % a + a <= y + a
  {
    assert y - y % a + a == (y / a + 1) * a;
    MultipleMod(y / a + 1, a);
  }

  /** The bits of a and a - 1 together fall short of 2 * a - 1 unless a is a power of two. */
  lemma {:induction false} OrPred(a: nat)
    requires a > 0
    ensures a <= BitOr(a, a - 1) <= 2 * a - 1
    ensures BitOr(a, a - 1) == 2 * a - 1 <==> PowerOfTwo(a)
  {
    var b := a / 2;
    if a % 2 == 0 {
      OrPred(b);
      assert (a - 1) / 2 == b - 1 && BitOr(a, a - 1) == 2 * BitOr(b, b - 1) + 1;
    } else {
      OrSame(b);
      assert (a - 1) / 2 == b && BitOr(a, a - 1) == 2 * BitOr(b, b) + 1;
    }
  }

  lemma {:induction false} OrSame(x: nat)
    ensures BitOr(x, x) == x
  {
    if x > 0 { OrSame(x / 2); }
  }

  /** The macro rounds every address to a multiple of a if and only if a is a power of two. */
  lemma AlignsIffPowerOfTwo(a: nat)
    requires a > 0
    ensures (forall x: nat :: AlignAbove(x, a) % a == 0) <==> PowerOfTwo(a)
  {
    if PowerOfTwo(a) {
      forall x: nat ensures AlignAbove(x, a) % a == 0 { AlignAboveRounds(x, a); }
    } else {
      OrPred(a);
      var r := AlignAbove(a + 1, a);
      assert a < r < 2 * a;
      ModUnique(r, a, 1, r - a);
    }
  }

  lemma PageIsPowerOfTwo()
    ensures PowerOfTwo(PAGE_SIZE)
  {
    assert PowerOfTwo(1) && PowerOfTwo(2) && PowerOfTwo(4) && PowerOfTwo(8) && PowerOfTwo(16) && PowerOfTwo(32);
    assert PowerOfTwo(64) && PowerOfTwo(128) && PowerOfTwo(256) && PowerOfTwo(512) && PowerOfTwo(1024);
    assert PowerOfTwo(2048);
  }

  lemma PageAbove(x: nat)
    ensures AlignAbove(x, PAGE_SIZE) == (x + PAGE_SIZE - 1) / PAGE_SIZE * PAGE_SIZE
  {
    PageIsPowerOfTwo();
    AlignAboveRounds(x, PAGE_SIZE);
  }

  // ----- quotients

  lemma Quotient(w: nat, x: nat, low: nat)
    requires w > 0
    ensures (w * x + low) / w == x + low / w
  {
    var y := w * x + low;
    assert w * (x + low / w) == w * x + w * (low / w);
    OneQuotient(w, y / w, y % w, x + low / w, low % w);
  }

  lemma OneQuotient(w: nat, q: nat, r: nat, q': nat, r': nat)
    requires r < w && r' < w && w * q + r == w * q' + r'
    ensures q == q'
  {
    if q < q' { MultipleAbove(w, q, q'); }
    if q' < q { MultipleAbove(w, q', q); }
  }

  lemma {:induction false} MultipleAbove(w: nat, a: nat, b: nat)
    requires a < b
    ensures w * a + w <= w * b
    decreases b
  {
    assert w * b == w * (b - 1) + w;
    if a < b - 1 { MultipleAbove(w, a, b - 1); }
  }

  lemma AddEven(x: nat, y: nat)
    ensures (2 * x + y) % 2 == y % 2
  {
  }
}
