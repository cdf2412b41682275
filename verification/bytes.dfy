/** Bytes as the receiver's C code sees them: eight-bit unsigned values,
    with C's bitwise inclusive or written out on naturals. */
module Bytes {

  /** An unsigned eight-bit value (`uint8_t`, and `char`, which is unsigned
      on the target). */
  type byte = x: int | 0 <= x < 256

  /** An unsigned sixteen-bit value (`uint16_t`). */
  type uint16 = x: int | 0 <= x < 0x1_0000

  function Pow2(k: nat): (p: nat)
    ensures p >= 1
  {
    if k == 0 then 1 else 2 * Pow2(k - 1)
  }

  /** `m << k` on naturals, as repeated doubling. */
  function Shl(m: nat, k: nat): (r: nat)
    ensures m == 0 ==> r == 0
  {
    if k == 0 then m else 2 * Shl(m, k - 1)
  }

  lemma {:induction false} ShlIsProduct(m: nat, k: nat)
    ensures Shl(m, k) == Pow2(k) * m
  {
    if k > 0 {
      ShlIsProduct(m, k - 1);
      DoubleProduct(Pow2(k - 1), m);
    }
  }

  lemma DoubleProduct(q: nat, m: nat)
    ensures (2 * q) * m == 2 * (q * m)
  {
  }

  /** C's `a | b`: bit i of the result is set when bit i of either operand
      is, computed from the least significant bit up. */
  function BitOr(a: nat, b: nat): nat
    decreases a + b
  {
    if a == 0 then b
    else if b == 0 then a
    else 2 * BitOr(a / 2, b / 2) + (if a % 2 == 1 || b % 2 == 1 then 1 else 0)
  }

  lemma {:induction false} BitOrCommutes(a: nat, b: nat)
    ensures BitOr(a, b) == BitOr(b, a)
    decreases a + b
  {
    if a != 0 && b != 0 {
      BitOrCommutes(a / 2, b / 2);
    }
  }

  /** Peeling off the least significant bit works for zero operands too. */
  lemma BitOrStep(a: nat, b: nat)
    ensures BitOr(a, b) == 2 * BitOr(a / 2, b / 2) + (if a % 2 == 1 || b % 2 == 1 then 1 else 0)
  {
    if a == 0 {
      assert BitOr(a / 2, b / 2) == b / 2;
    } else if b == 0 {
      assert BitOr(a / 2, b / 2) == a / 2;
    }
  }

  /** Or-ing two values bit-field by bit-field: the low `k` bits and the
      bits above them combine independently. */
  lemma {:induction false} BitOrSplit(m: nat, d: nat, n: nat, e: nat, k: nat)
    requires d < Pow2(k) && e < Pow2(k)
    ensures BitOr(Shl(m, k) + d, Shl(n, k) + e) == Shl(BitOr(m, n), k) + BitOr(d, e)
    decreases k
  {
    if k > 0 {
      BitOrSplit(m, d / 2, n, e / 2, k - 1);
      BitOrShift(Shl(m, k - 1), Shl(n, k - 1), Shl(BitOr(m, n), k - 1), d, e);
    } else {
      assert d == 0 && e == 0;
    }
  }

  /** If an or splits at bit 1 after dropping the lowest bits `d % 2` and
      `e % 2`, it splits at bit 0 with them. */
  lemma BitOrShift(x: nat, y: nat, z: nat, d: nat, e: nat)
    requires BitOr(x + d / 2, y + e / 2) == z + BitOr(d / 2, e / 2)
    ensures BitOr(2 * x + d, 2 * y + e) == 2 * z + BitOr(d, e)
  {
    BitOrLowBit(x + d / 2, y + e / 2, d % 2, e % 2);
    BitOrStep(d, e);
  }

  /** Appending one bit to each operand appends their or. */
  lemma BitOrLowBit(x: nat, y: nat, c: nat, f: nat)
    requires c < 2 && f < 2
    ensures BitOr(2 * x + c, 2 * y + f) == 2 * BitOr(x, y) + (if c == 1 || f == 1 then 1 else 0)
  {
    BitOrStep(2 * x + c, 2 * y + f);
    assert (2 * x + c) / 2 == x && (2 * y + f) / 2 == y;
  }

  /** Or-ing a value below `2^k` into a multiple of `2^k` is addition. */
  lemma BitOrIntoLowBits(m: nat, e: nat, k: nat)
    requires e < Pow2(k)
    ensures BitOr(Shl(m, k), e) == Shl(m, k) + e
  {
    BitOrSplit(m, 0, 0, e, k);
    assert BitOr(m, 0) == m && BitOr(0, e) == e;
  }

  /** C's `c | 32` on a byte: bit 5 is forced on, which for an ASCII letter
      selects the lower-case form. */
  lemma SetBit5(c: byte)
    ensures BitOr(c, 32) == if (c / 32) % 2 == 1 then c else c + 32
  {
    var q := c / 32;
    assert Pow2(5) == 32;
    ShlIsProduct(q, 5);
    ShlIsProduct(1, 5);
    ShlIsProduct(BitOr(q, 1), 5);
    BitOrSplit(q, c % 32, 1, 0, 5);
    assert BitOr(c % 32, 0) == c % 32;
    BitOrStep(q, 1);
    assert BitOr(q / 2, 0) == q / 2;
  }
}
