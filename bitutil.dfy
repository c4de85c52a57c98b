/**
 * Integer and bit helpers shared by the JBIG2 model.
 *
 * Java arithmetic is 32-bit two's complement; Dafny integers are unbounded,
 * so every place where the decoder relies on a cast or a wrap-around calls
 * `Int32` or `SignedByte` explicitly.  `CeilLog2` replaces the floating-point
 * `Math.ceil(Math.log(n) / Math.log(2))` used to size symbol and pattern codes.
 */
module BitUtil {

  /** The exceptions the decoder raises, as values. */
  datatype Error =
    | EndOfStream          // java.io.EOFException from the image input stream
    | InvalidHeaderValue   // InvalidHeaderValueException
    | UnknownSegmentType   // no payload class registered for a type code
    | InstantiationFailed  // the payload's own init failed
    | IndexOutOfBounds     // ArrayIndexOutOfBounds / IndexOutOfBounds
    | NullReference        // a null dereference
    | IllegalArgument      // IllegalArgumentException for a null argument
    | NegativeSize         // NegativeArraySize / IllegalArgument on a capacity

  datatype Result<T> = Ok(value: T) | Fail(error: Error)

  datatype Option<T> = None | Some(value: T)

  /** The end of an operation that returns nothing: normal, or the exception it raises. */
  datatype Outcome = Success | Failure(error: Error)

  const TWO32: int := 0x1_0000_0000
  const INT_MIN: int := -0x8000_0000
  const INT_MAX: int := 0x7fff_ffff

  predicate IsInt32(v: int) { INT_MIN <= v <= INT_MAX }

  /**
   * Java's `(int)` cast of a value read as 32 unsigned bits: the same bits,
   * read as two's complement.
   */
  function Int32(v: int): (r: int)
    requires 0 <= v < TWO32
    ensures IsInt32(r)
    ensures v <= INT_MAX ==> r == v
    ensures (r - v) % TWO32 == 0
  {
    if v > INT_MAX then v - TWO32 else v
  }

  /** The value of a byte read with `readByte()`: two's complement, -128..127. */
  function SignedByte(v: int): (r: int)
    requires 0 <= v < 256
    ensures -128 <= r <= 127
    ensures (r - v) % 256 == 0
  {
    if v >= 128 then v - 256 else v
  }

  /** Java's `/` on `int`: truncates toward zero (Dafny's `/` is Euclidean). */
  function JavaDiv(a: int, b: int): (r: int)
    requires b > 0
    ensures a >= 0 ==> r == a / b
    ensures a < 0 ==> r == -((-a) / b)
    ensures a >= 0 ==> r * b <= a < r * b + b
    ensures a < 0 ==> r <= 0 && a <= r * b < a + b
  {
    if a >= 0 then a / b
    else
      var q := (-a) / b;
      assert q * b <= -a < q * b + b;
      assert -q * b == -(q * b);
      -q
  }

  function Pow2(n: nat): (r: nat)
    ensures r >= 1
  {
    if n == 0 then 1 else 2 * Pow2(n - 1)
  }

  lemma {:induction false} Pow2Monotone(a: nat, b: nat)
    requires a <= b
    ensures Pow2(a) <= Pow2(b)
  {
    if a < b { Pow2Monotone(a, b - 1); }
  }

  lemma {:induction false} Pow2Add(a: nat, b: nat)
    ensures Pow2(a + b) == Pow2(a) * Pow2(b)
  {
    if b > 0 { Pow2Add(a, b - 1); }
  }

  lemma Pow2Of8()
    ensures Pow2(8) == 256
  {
  }

  lemma Pow2Of32()
    ensures Pow2(32) == TWO32
  {
    Pow2Of8();
    Pow2Add(8, 8);
    Pow2Add(16, 16);
  }

  lemma BitsValueByte(bits: seq<bool>)
    requires |bits| == 8
    ensures BitsValue(bits) < 256
  {
    BitsValueBound(bits);
    Pow2Of8();
  }

  lemma BitsValueWord(bits: seq<bool>)
    requires |bits| == 32
    ensures BitsValue(bits) < TWO32
  {
    BitsValueBound(bits);
    Pow2Of32();
  }

  lemma BitsValueFits32(bits: seq<bool>)
    requires |bits| <= 32
    ensures BitsValue(bits) < TWO32
  {
    BitsValueBound(bits);
    Pow2Monotone(|bits|, 32);
    Pow2Of32();
  }

  /**
   * The number of bits needed to number `n` alternatives: the least `r` with
   * `n <= 2^r`, the exact ceiling of log2(n) for n >= 1.  Java computes it
   * with double-precision logarithms, whose rounded quotient can land just
   * above an exact exponent at a power of two and so give one more.
   */
  function CeilLog2(n: nat): (r: nat)
    ensures n <= Pow2(r)
    ensures r > 0 ==> Pow2(r - 1) < n
    decreases n
  {
    if n <= 1 then 0 else 1 + CeilLog2((n + 1) / 2)
  }

  /** `CeilLog2` is the only exponent with the characterising bounds. */
  lemma {:induction false} CeilLog2Unique(n: nat, r: nat)
    requires n <= Pow2(r)
    requires r > 0 ==> Pow2(r - 1) < n
    ensures r == CeilLog2(n)
  {
    var c := CeilLog2(n);
    if r < c {
      Pow2Monotone(r, c - 1);
    } else if c < r {
      Pow2Monotone(c, r - 1);
    }
  }

  /** The unsigned value of a run of bits, most significant bit first. */
  function BitsValue(bits: seq<bool>): nat
    decreases |bits|
  {
    if |bits| == 0 then 0
    else 2 * BitsValue(bits[..|bits| - 1]) + (if bits[|bits| - 1] then 1 else 0)
  }

  /** `k` bits hold a value below `2^k`. */
  lemma {:induction false} BitsValueBound(bits: seq<bool>)
    ensures BitsValue(bits) < Pow2(|bits|)
    decreases |bits|
  {
    if |bits| > 0 { BitsValueBound(bits[..|bits| - 1]); }
  }

  /** The `k`-bit MSB-first encoding of `v` (the low `k` bits of `v`). */
  function ToBits(v: nat, k: nat): (r: seq<bool>)
    ensures |r| == k
    decreases k
  {
    if k == 0 then [] else ToBits(v / 2, k - 1) + [v % 2 == 1]
  }

  lemma {:induction false} BitsValueToBits(v: nat, k: nat)
    requires v < Pow2(k)
    ensures BitsValue(ToBits(v, k)) == v
  {
    if k > 0 {
      var r, h := ToBits(v, k), ToBits(v / 2, k - 1);
      assert r[..k - 1] == h && r[k - 1] == (v % 2 == 1);
      assert v / 2 < Pow2(k - 1);
      BitsValueToBits(v / 2, k - 1);
      assert BitsValue(r) == 2 * BitsValue(h) + v % 2;
    }
  }

  lemma {:induction false} ToBitsBitsValue(bits: seq<bool>)
    ensures ToBits(BitsValue(bits), |bits|) == bits
  {
    if |bits| > 0 {
      var init := bits[..|bits| - 1];
      ToBitsBitsValue(init);
      assert bits == init + [bits[|bits| - 1]];
    }
  }

  /** Reading `a + b` bits is reading `a` bits, then `b` more. */
  lemma {:induction false} BitsValueAppend(x: seq<bool>, y: seq<bool>)
    ensures BitsValue(x + y) == BitsValue(x) * Pow2(|y|) + BitsValue(y)
    decreases |y|
  {
    if |y| > 0 {
      var y0 := y[..|y| - 1];
      var lastBit := if y[|y| - 1] then 1 else 0;
      assert (x + y)[..|x + y| - 1] == x + y0;
      assert (x + y)[|x + y| - 1] == y[|y| - 1];
      BitsValueAppend(x, y0);
      var a, p, b := BitsValue(x), Pow2(|y0|), BitsValue(y0);
      assert BitsValue(x + y) == 2 * BitsValue(x + y0) + lastBit;
      assert BitsValue(y) == 2 * b + lastBit;
      assert Pow2(|y|) == 2 * p;
      MulDouble(a, p);
    } else {
      assert x + y == x;
    }
  }

  lemma MulDouble(a: int, p: int)
    ensures a * (2 * p) == 2 * (a * p)
  {
  }

  /** Java `int` arithmetic: the exact value taken modulo 2^32, as two's complement. */
  function Wrap32(v: int): (r: int)
    ensures IsInt32(r)
    ensures IsInt32(v) ==> r == v
  {
    Int32(v % TWO32)
  }

  /** Wrapping changes a value by a multiple of 2^32. */
  lemma Wrap32Congruent(v: int)
    ensures (v - Wrap32(v)) % TWO32 == 0
  {
    var q := v / TWO32;
    assert v == q * TWO32 + v % TWO32;
    if v % TWO32 > INT_MAX {
      assert v - Wrap32(v) == (q + 1) * TWO32;
    } else {
      assert v - Wrap32(v) == q * TWO32;
    }
  }

  /**
   * The number of bits the decoders use to number `count` patterns or
   * symbols, `(int) Math.ceil(Math.log(count) / Math.log(2))`.  With none
   * the logarithm is minus infinity, which the cast turns into
   * `Integer.MIN_VALUE`.
   */
  function BitsPerValue(count: nat): (r: int)
    ensures count == 0 <==> r < 0
    ensures count == 0 ==> r == INT_MIN
    ensures count > 0 ==> r >= 0 && count <= Pow2(r) && (r > 0 ==> Pow2(r - 1) < count)
  {
    if count == 0 then INT_MIN else CeilLog2(count)
  }
}
