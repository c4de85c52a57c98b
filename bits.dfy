/**
 * Pixels of a packed byte.  Bit 7 (the most significant) is the leftmost
 * pixel, numbered 0; bit 0 is pixel 7.  Pixel positions and shift distances
 * are byte-sized counts, so every fact below is a statement about bytes
 * alone.  The lemmas give the effect of each byte operation the compositing
 * code uses on a single pixel, so that byte formulas can be reasoned about
 * pixel by pixel.
 */
module Bits {

  /** Pixel `i` (0 = leftmost) of a packed byte: bit `7 - i`. */
  function BitAt(b: bv8, i: bv8): bv8
    requires i < 8
  {
    (b >> (7 - i)) & 1
  }

  /** The position of column `x` within its byte: `x & 7`. */
  function Offset(x: int): (r: bv8)
    ensures r < 8 && r as int == x % 8
  {
    (x % 8) as bv8
  }

  /** The offset is 0 exactly at the first column of a byte. */
  lemma OffsetZero(x: int)
    ensures Offset(x) == 0 <==> x % 8 == 0
  {
  }

  lemma SmallToBvAdd(a: int, b: int)
    requires 0 <= a && 0 <= b && a + b < 8
    ensures (a + b) as bv8 == a as bv8 + b as bv8
  {
  }

  lemma SmallToBvCarry(a: int, b: int)
    requires 0 <= a < 8 && 0 <= b < 8 && 8 <= a + b
    ensures (a + b - 8) as bv8 == a as bv8 + b as bv8 - 8
  {
  }

  /** The offset of `x + y` when the two offsets do not carry into the next byte. */
  lemma OffsetSum(x: int, y: int)
    requires x % 8 + y % 8 < 8
    ensures Offset(x + y) == Offset(x) + Offset(y)
  {
    var a, b := x % 8, y % 8;
    assert (x + y) % 8 == a + b;
    SmallToBvAdd(a, b);
  }

  /** The offset of `x + y` when the two offsets carry into the next byte. */
  lemma OffsetSumCarry(x: int, y: int)
    requires x % 8 + y % 8 >= 8
    ensures Offset(x + y) == Offset(x) + Offset(y) - 8
  {
    var a, b := x % 8, y % 8;
    assert (x + y) % 8 == a + b - 8;
    SmallToBvCarry(a, b);
  }

  /** A pixel is 0 or 1. */
  lemma BitAtBinary(b: bv8, i: bv8)
    requires i < 8
    ensures BitAt(b, i) == 0 || BitAt(b, i) == 1
  {
  }

  /** `v << k` moves pixel `i + k` to pixel `i` and brings in zeros on the right. */
  lemma ShlBit(v: bv8, k: bv8, i: bv8)
    requires k <= 8 && i < 8
    ensures BitAt(v << k, i) == if i + k < 8 then BitAt(v, i + k) else 0
  {
  }

  /** `v >> k` (unsigned) moves pixel `i - k` to pixel `i` and brings in zeros on the left. */
  lemma ShrBit(v: bv8, k: bv8, i: bv8)
    requires k <= 8 && i < 8
    ensures BitAt(v >> k, i) == if i >= k then BitAt(v, i - k) else 0
  {
  }

  lemma OrBit(a: bv8, b: bv8, i: bv8)
    requires i < 8
    ensures BitAt(a | b, i) == BitAt(a, i) | BitAt(b, i)
  {
  }

  lemma AndBit(a: bv8, b: bv8, i: bv8)
    requires i < 8
    ensures BitAt(a & b, i) == BitAt(a, i) & BitAt(b, i)
  {
  }

  lemma XorBit(a: bv8, b: bv8, i: bv8)
    requires i < 8
    ensures BitAt(a ^ b, i) == BitAt(a, i) ^ BitAt(b, i)
  {
  }

  lemma NotBit(a: bv8, i: bv8)
    requires i < 8
    ensures BitAt(!a, i) == 1 - BitAt(a, i)
  {
  }

  /** OR-ing the mask of pixel `s` sets pixel `s` and keeps every other pixel. */
  lemma OrMaskBit(v: bv8, s: bv8, t: bv8)
    requires s < 8 && t < 8
    ensures BitAt(v | (1 << (7 - s)), t) == if s == t then 1 else BitAt(v, t)
  {
  }

  /** `(v >> k) << k` keeps the pixels left of the last `k` and clears those. */
  lemma ClearLowBit(v: bv8, k: bv8, i: bv8)
    requires k <= 8 && i < 8
    ensures BitAt((v >> k) << k, i) == if i + k < 8 then BitAt(v, i) else 0
  {
  }

  /**
   * The byte `(a << up) | (b >>> (8 - up))` that joins the tail of `a` to the
   * head of `b`: pixel `i` comes from `a` at `i + up` or from `b` at
   * `i + up - 8`.
   */
  lemma MergeBit(a: bv8, b: bv8, up: bv8, i: bv8)
    requires 0 < up < 8 && i < 8
    ensures BitAt((a << up) | (b >> (8 - up)), i)
      == if i + up < 8 then BitAt(a, i + up) else BitAt(b, i + up - 8)
  {
  }

  /** Two bytes are equal exactly when all eight pixels are. */
  lemma ByteFromBits(a: bv8, b: bv8)
    requires forall i: bv8 :: i < 8 ==> BitAt(a, i) == BitAt(b, i)
    ensures a == b
  {
    assert BitAt(a, 0) == BitAt(b, 0) && BitAt(a, 1) == BitAt(b, 1);
    assert BitAt(a, 2) == BitAt(b, 2) && BitAt(a, 3) == BitAt(b, 3);
    assert BitAt(a, 4) == BitAt(b, 4) && BitAt(a, 5) == BitAt(b, 5);
    assert BitAt(a, 6) == BitAt(b, 6) && BitAt(a, 7) == BitAt(b, 7);
  }
}
