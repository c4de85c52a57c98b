/**
 * The byte-level primitives of Bitmaps.java: combining bytes under the five
 * JBIG2 combination operators, clearing pad bits, and `extract`, which cuts
 * a sub-rectangle out of a bitmap into a new one through `copyLine`.
 * Subsampling and blitting, which build on these, are the modules
 * Subsampling and Blitting.
 */
module Compositing {
  import opened BitUtil
  import opened Bits
  import opened PackedBitmap

  /** The combination operators (CombinationOperator.java is not part of this model). */
  datatype CombinationOperator = OR | AND | XOR | XNOR | REPLACE

  /**
   * `CombinationOperator.translateOperatorCodeToEnum`: the codes 0..3 name
   * OR, AND, XOR and XNOR; every other code is REPLACE.
   */
  function OperatorFromCode(code: int): (op: CombinationOperator)
    ensures 0 <= code <= 3 <==> op != REPLACE
    ensures code == 2 <==> op == XOR
  {
    if code == 0 then OR
    else if code == 1 then AND
    else if code == 2 then XOR
    else if code == 3 then XNOR
    else REPLACE
  }

  /**
   * The effect of an operator on one pixel, as the standard defines it: the
   * old (destination) pixel combined with the new (source) pixel.
   */
  function CombinePixel(oldPixel: bv8, newPixel: bv8, op: CombinationOperator): bv8
  {
    match op
    case OR => if oldPixel == 1 || newPixel == 1 then 1 else 0
    case AND => if oldPixel == 1 && newPixel == 1 then 1 else 0
    case XOR => if oldPixel != newPixel then 1 else 0
    case XNOR => if oldPixel == newPixel then 1 else 0
    case REPLACE => newPixel
  }

  /** `combineBytes(value1, value2, op)`: value1 is the old byte, value2 the new one. */
  function CombineBytes(value1: bv8, value2: bv8, op: CombinationOperator): bv8
  {
    match op
    case OR => value2 | value1
    case AND => value2 & value1
    case XOR => value2 ^ value1
    case XNOR => !(value1 ^ value2)
    case REPLACE => value2
  }

  /** Combining bytes combines each of their eight pixels by the operator's pixel rule. */
  lemma CombineBytesPixels(value1: bv8, value2: bv8, op: CombinationOperator, i: bv8)
    requires i < 8
    ensures BitAt(CombineBytes(value1, value2, op), i)
      == CombinePixel(BitAt(value1, i), BitAt(value2, i), op)
  {
    match op
    case OR => OrRule(value1, value2, i);
    case AND => AndRule(value1, value2, i);
    case XOR => XorRule(value1, value2, i);
    case XNOR => XnorRule(value1, value2, i);
    case REPLACE =>
  }

  lemma OrRule(a: bv8, b: bv8, i: bv8)
    requires i < 8
    ensures BitAt(b | a, i) == if BitAt(a, i) == 1 || BitAt(b, i) == 1 then 1 else 0
  {
  }

  lemma AndRule(a: bv8, b: bv8, i: bv8)
    requires i < 8
    ensures BitAt(b & a, i) == if BitAt(a, i) == 1 && BitAt(b, i) == 1 then 1 else 0
  {
  }

  lemma XorRule(a: bv8, b: bv8, i: bv8)
    requires i < 8
    ensures BitAt(b ^ a, i) == if BitAt(a, i) != BitAt(b, i) then 1 else 0
  {
  }

  lemma XnorRule(a: bv8, b: bv8, i: bv8)
    requires i < 8
    ensures BitAt(!(a ^ b), i) == if BitAt(a, i) == BitAt(b, i) then 1 else 0
  {
  }

  /** XOR-ing the same byte twice restores the old byte. */
  lemma XorSelfInverse(a: bv8, b: bv8)
    ensures CombineBytes(CombineBytes(a, b, XOR), b, XOR) == a
  {
  }

  /** A zero source byte leaves the old byte unchanged under OR and XOR. */
  lemma CombineZero(a: bv8, op: CombinationOperator)
    requires op == OR || op == XOR
    ensures CombineBytes(a, 0, op) == a
  {
  }

  /**
   * `unpad(padding, value)`: `(byte) (value >> padding << padding)`.  Java
   * takes a shift distance modulo 32, so a distance of 8 or more mod 32
   * (including every negative distance down to -24) clears the whole byte.
   */
  function Unpad(padding: int, value: bv8): bv8
  {
    var s := padding % 32;
    if s >= 8 then 0 else (value >> (s as bv8)) << (s as bv8)
  }

  /** `unpad(p, v)` keeps the leftmost `8 - p` pixels of `v` and clears the last `p`. */
  lemma UnpadPixels(padding: int, value: bv8, i: bv8)
    requires i < 8
    ensures BitAt(Unpad(padding, value), i)
      == if i as int + padding % 32 < 8 then BitAt(value, i) else 0
  {
    var s := padding % 32;
    if s < 8 {
      ClearLowBit(value, s as bv8, i);
      assert (i + s as bv8 < 8) == (i as int + s < 8);
    } else {
      BitAtZero(i);
    }
  }

  lemma BitAtZero(i: bv8)
    requires i < 8
    ensures BitAt(0, i) == 0
  {
  }

  // ---------------------------------------------------------------------------
  // extract and copyLine
  // ---------------------------------------------------------------------------

  /** java.awt.Rectangle as extract and blit use it. */
  datatype Rectangle = Rectangle(x: int, y: int, width: int, height: int)

  function Zeros(n: nat): (r: seq<bv8>)
    ensures |r| == n
  {
    seq(n, _ => 0)
  }

  /** `(a << up) | ((b & 0xff) >>> (8 - up))`, the byte copyLine assembles. */
  function MergeBytes(a: bv8, b: bv8, up: bv8): bv8
    requires 0 < up < 8
  {
    (a << up) | (b >> (8 - up))
  }

  /**
   * The bytes copyLine writes for `count` source bytes starting at
   * `sourceOffset`: each joins a byte to the head of the next one, the last
   * is unpadded when `usePadding` is false, and when it is true one more byte
   * (the last source byte shifted up, unpadded) follows.
   */
  function CopyLineBytes(src: seq<bv8>, sourceOffset: int, count: int, up: bv8, padding: int,
                         usePadding: bool): (r: seq<bv8>)
    requires 0 < up < 8 && 0 < count
    requires 0 <= sourceOffset && sourceOffset + count < |src|
    ensures |r| == if usePadding then count + 1 else count
  {
    CopyBytesFrom(src, sourceOffset, count, up, padding, usePadding, 0)
    + (if usePadding then [Unpad(padding, src[sourceOffset + count] << up)] else [])
  }

  /** The joined bytes `k..count - 1` of `CopyLineBytes`. */
  function CopyBytesFrom(src: seq<bv8>, sourceOffset: int, count: int, up: bv8, padding: int,
                         usePadding: bool, k: int): (r: seq<bv8>)
    requires 0 < up < 8 && 0 <= k <= count
    requires 0 <= sourceOffset && sourceOffset + count < |src|
    ensures |r| == count - k
    decreases count - k, 1
  {
    if k == count then []
    else CopyBytesAt(src, sourceOffset, count, up, padding, usePadding, k)
  }

  /** Byte `k < count` of copyLine followed by the bytes after it. */
  function CopyBytesAt(src: seq<bv8>, sourceOffset: int, count: int, up: bv8, padding: int,
                       usePadding: bool, k: int): (r: seq<bv8>)
    requires 0 < up < 8 && 0 <= k < count
    requires 0 <= sourceOffset && sourceOffset + count < |src|
    ensures |r| == count - k
    decreases count - k, 0
  {
    [CopyByte(src, sourceOffset, count, up, padding, usePadding, k)]
    + CopyBytesFrom(src, sourceOffset, count, up, padding, usePadding, k + 1)
  }

  lemma {:induction false} CopyBytesFromAt(src: seq<bv8>, sourceOffset: int, count: int, up: bv8,
                                           padding: int, usePadding: bool, k: int, i: int)
    requires 0 < up < 8 && 0 <= k <= i < count
    requires 0 <= sourceOffset && sourceOffset + count < |src|
    ensures CopyBytesFrom(src, sourceOffset, count, up, padding, usePadding, k)[i - k]
      == CopyByte(src, sourceOffset, count, up, padding, usePadding, i)
    decreases i - k
  {
    if k < i {
      CopyBytesFromAt(src, sourceOffset, count, up, padding, usePadding, k + 1, i);
    }
  }

  /** Joined byte `k < count` of `CopyLineBytes`. */
  function CopyByte(src: seq<bv8>, sourceOffset: int, count: int, up: bv8, padding: int,
                    usePadding: bool, k: int): bv8
    requires 0 < up < 8 && 0 <= k < count
    requires 0 <= sourceOffset && sourceOffset + count < |src|
  {
    var v := MergeBytes(src[sourceOffset + k], src[sourceOffset + k + 1], up);
    if k == count - 1 && !usePadding then Unpad(padding, v) else v
  }

  /** The bytes of copyLine one at a time. */
  lemma CopyLineByteAt(src: seq<bv8>, sourceOffset: int, count: int, up: bv8, padding: int,
                       usePadding: bool, k: int)
    requires 0 < up < 8 && 0 < count
    requires 0 <= sourceOffset && sourceOffset + count < |src|
    requires 0 <= k < count || (k == count && usePadding)
    ensures var line := CopyLineBytes(src, sourceOffset, count, up, padding, usePadding);
      line[k] == if k == count then Unpad(padding, src[sourceOffset + count] << up)
                 else if k == count - 1 && !usePadding
                 then Unpad(padding, MergeBytes(src[sourceOffset + k], src[sourceOffset + k + 1], up))
                 else MergeBytes(src[sourceOffset + k], src[sourceOffset + k + 1], up)
  {
    if k < count {
      CopyBytesFromAt(src, sourceOffset, count, up, padding, usePadding, 0, k);
    }
  }

  /**
   * The bytes extract writes for one row whose first and last source bytes
   * are `start` and `end`: one shifted, unpadded byte when they coincide;
   * the row's bytes as they are (the last unpadded) when the region is
   * byte-aligned; otherwise the bytes of copyLine.
   */
  function ExtractLine(src: seq<bv8>, start: int, end: int, up: bv8, padding: int,
                       usePadding: bool): (r: seq<bv8>)
    requires up < 8
    requires start <= end ==> 0 <= start && end < |src|
  {
    if start == end then [Unpad(padding, src[start] << up)]
    else if end < start then []
    else if up == 0 then
      seq(end - start + 1, k requires 0 <= k < end - start + 1 =>
        AlignedByte(src, start, end, padding, usePadding, k))
    else CopyLineBytes(src, start, end - start, up, padding, usePadding)
  }

  /** Byte `k` of a byte-aligned row: the source byte, the last one unpadded when `usePadding`. */
  function AlignedByte(src: seq<bv8>, start: int, end: int, padding: int, usePadding: bool, k: int): bv8
    requires 0 <= start && 0 <= k <= end - start && end < |src|
  {
    if k == end - start && usePadding then Unpad(padding, src[start + k]) else src[start + k]
  }

  /** The bytes of a byte-aligned row one at a time. */
  lemma AlignedLineByteAt(src: seq<bv8>, start: int, end: int, padding: int, usePadding: bool, k: int)
    requires 0 <= start < end < |src| && 0 <= k <= end - start
    ensures ExtractLine(src, start, end, 0, padding, usePadding)[k]
      == if k == end - start && usePadding then Unpad(padding, src[start + k]) else src[start + k]
  {
  }

  /** The pad bits of the last byte of a row `width` pixels wide: `(8 - width) & 7`. */
  function PadBits(width: int): (r: int)
    ensures 0 <= r < 8 && (width + r) % 8 == 0
  {
    (8 - width) % 8
  }

  /**
   * `rows` rows whose first and last bytes start at `lo` and `hi` and step
   * by `stride` all lie in a buffer of `len` bytes.
   */
  predicate RowsFit(lo: int, hi: int, rows: int, stride: int, len: int)
    decreases rows
  {
    rows <= 0 || (0 <= lo && hi < len && RowsFit(lo + stride, hi + stride, rows - 1, stride, len))
  }

  /** The first and last source bytes of the region's top row. */
  function ExtractStart(roi: Rectangle, srcStride: int): int
  {
    ByteIndex(srcStride, roi.x, roi.y)
  }

  function ExtractEnd(roi: Rectangle, srcStride: int): int
  {
    ByteIndex(srcStride, roi.x + roi.width - 1, roi.y)
  }

  /** `usePadding`: the destination row is as long as the span of source bytes. */
  function UsePadding(roi: Rectangle, srcStride: int): bool
  {
    RowStride(roi.width) == ExtractEnd(roi, srcStride) + 1 - ExtractStart(roi, srcStride)
  }

  /**
   * The source bytes followed by a 0 byte.  copyLine reads a row's bytes
   * in pairs and, on a pass whose byte is the last of the buffer, takes
   * its else branch: the byte shifted up with nothing joined after it, not
   * unpadded, and no extra last byte.  That is what the pairwise join
   * writes when the buffer ends in a 0 byte.
   */
  function WithZeroTail(src: seq<bv8>): (r: seq<bv8>)
    ensures |r| == |src| + 1 && r[|src|] == 0 && forall i :: 0 <= i < |src| ==> r[i] == src[i]
  {
    src + [0]
  }

  /**
   * The end (exclusive) of the byte indices a row's last byte may have: a
   * row of several bytes at an unaligned column may end one byte past the
   * buffer, where copyLine's else branch stops reading; any other row must
   * end inside it.
   */
  function ReadLimit(roi: Rectangle, srcStride: int, len: int): int
  {
    if Offset(roi.x) != 0 && ExtractStart(roi, srcStride) < ExtractEnd(roi, srcStride) then len + 1 else len
  }

  /**
   * Whether extract runs without an exception: the destination can be
   * allocated, and the bytes every row reads lie in the source buffer, up
   * to `ReadLimit`.  A region less than one pixel wide reads nothing only
   * when its first and last byte indices cross.
   */
  predicate ExtractSucceeds(roi: Rectangle, src: seq<bv8>, srcStride: int)
  {
    var s, e := ExtractStart(roi, srcStride), ExtractEnd(roi, srcStride);
    0 <= roi.height * RowStride(roi.width)
    && (roi.height <= 0
        || (roi.width <= 0 && e < s)
        || (1 <= roi.width && RowsFit(s, e, roi.height, srcStride, ReadLimit(roi, srcStride, |src|))))
  }

  /** Rows that fit a buffer fit a longer one. */
  lemma {:induction false} RowsFitWiden(lo: int, hi: int, rows: int, stride: int, len: int, len': int)
    requires RowsFit(lo, hi, rows, stride, len) && len <= len'
    ensures RowsFit(lo, hi, rows, stride, len')
    decreases rows
  {
    if rows > 0 {
      RowsFitWiden(lo + stride, hi + stride, rows - 1, stride, len, len');
    }
  }

  /**
   * The span of source bytes of a row and the destination stride: the span is
   * one byte when the row fits in the first byte, the whole stride when the
   * region is byte-aligned, and otherwise the stride or one byte more, in
   * which case `usePadding` is false.
   */
  lemma ExtractSpan(roi: Rectangle, srcStride: int)
    requires 1 <= roi.width
    ensures var s, e, ds := ExtractStart(roi, srcStride), ExtractEnd(roi, srcStride), RowStride(roi.width);
      s <= e
      && (s == e ==> ds == 1)
      && (roi.x % 8 == 0 ==> e - s + 1 == ds)
      && (e - s + 1 == ds || e - s == ds)
      && e - s == (roi.x % 8 + roi.width - 1) / 8
  {
    var q, u, w := roi.x / 8, roi.x % 8, roi.width;
    assert roi.x == 8 * q + u;
    assert roi.x + w - 1 == 8 * q + (u + w - 1);
    assert (roi.x + w - 1) / 8 == q + (u + w - 1) / 8;
  }

  /**
   * A row of several source bytes at an unaligned column whose destination
   * row is one byte shorter than its span has fewer pad bits than the
   * column offset.
   */
  lemma PadBelowShift(roi: Rectangle, srcStride: int)
    requires 1 <= roi.width && Offset(roi.x) != 0
    requires ExtractStart(roi, srcStride) < ExtractEnd(roi, srcStride) && !UsePadding(roi, srcStride)
    ensures 0 <= PadBits(roi.width) < Offset(roi.x) as int
  {
    ExtractSpan(roi, srcStride);
    PadStride(roi.width);
  }

  /** The pad bits and the pixels of a row fill its bytes exactly. */
  lemma PadStride(width: int)
    requires 1 <= width
    ensures width + PadBits(width) == 8 * RowStride(width)
  {
  }

  /** Pixel `i` of an unpadded byte: kept when it lies left of the `padding` pad bits. */
  lemma UnpadPixel(padding: int, value: bv8, i: int)
    requires 0 <= padding < 8 && 0 <= i
    ensures BitAt(Unpad(padding, value), Offset(i))
      == if i % 8 + padding < 8 then BitAt(value, Offset(i)) else 0
  {
    UnpadPixels(padding, value, Offset(i));
  }

  /**
   * Pixel `i` of a byte joined from `a` and `b` at column offset `x & 7` is
   * pixel `x + i` of the pair: in `a` unless the offsets carry.
   */
  lemma MergedPixel(a: bv8, b: bv8, x: int, i: int)
    requires x % 8 != 0
    ensures BitAt(MergeBytes(a, b, Offset(x)), Offset(i))
      == if x % 8 + i % 8 < 8 then BitAt(a, Offset(x + i)) else BitAt(b, Offset(x + i))
  {
    MergeBit(a, b, Offset(x), Offset(i));
    if x % 8 + i % 8 < 8 {
      OffsetSum(x, i);
    } else {
      OffsetSumCarry(x, i);
    }
  }

  /** Pixel `i` of a byte shifted up by `x & 7`: pixel `x + i` when it does not carry. */
  lemma ShiftedPixel(a: bv8, x: int, i: int)
    requires x % 8 + i % 8 < 8
    ensures BitAt(a << Offset(x), Offset(i)) == BitAt(a, Offset(x + i))
  {
    ShlBit(a, Offset(x), Offset(i));
    OffsetSum(x, i);
  }

  /** A row that lies in one source byte: that byte, shifted up and unpadded. */
  lemma SingleBytePixel(src: seq<bv8>, lo: int, x: int, w: int, i: int)
    requires 1 <= w && (x % 8 + w - 1) / 8 == 0 && 0 <= lo < |src| && 0 <= i < 8
    ensures BitAt(Unpad(PadBits(w), src[lo] << Offset(x)), Offset(i))
      == if i < w then BitAt(src[lo + (x % 8 + i) / 8], Offset(x + i)) else 0
  {
    PadStride(w);
    assert RowStride(w) == 1 && i % 8 == i;
    var p := PadBits(w);
    assert (i % 8 + p < 8) == (i < w);
    UnpadPixel(p, src[lo] << Offset(x), i);
    if i < w {
      assert (x % 8 + i) / 8 == 0;
      ShiftedPixel(src[lo], x, i);
    }
  }

  /** A byte-aligned row: its bytes as they are, the last one unpadded. */
  lemma AlignedBytePixel(src: seq<bv8>, lo: int, n: int, x: int, w: int, i: int)
    requires x % 8 == 0 && 1 <= w && n == (w - 1) / 8 && 0 <= lo && lo + n < |src|
    requires 0 <= i < 8 * (n + 1)
    ensures var k := i / 8;
      BitAt(if k == n then Unpad(PadBits(w), src[lo + k]) else src[lo + k], Offset(i))
      == if i < w then BitAt(src[lo + (x % 8 + i) / 8], Offset(x + i)) else 0
  {
    var k, p := i / 8, PadBits(w);
    PadStride(w);
    assert RowStride(w) == n + 1 && i == 8 * k + i % 8 && (x % 8 + i) / 8 == k;
    OffsetSum(x, i);
    OffsetZero(x);
    if k == n {
      assert (i % 8 + p < 8) == (i < w);
      UnpadPixel(p, src[lo + n], i);
    } else {
      assert i < w;
    }
  }

  /** The pixel and pad facts shared by the bytes of a row copyLine joins. */
  predicate JoinedRow(src: seq<bv8>, lo: int, n: int, x: int, w: int, usePadding: bool, i: int)
  {
    x % 8 != 0 && 1 <= w && n == (x % 8 + w - 1) / 8 && 1 <= n
    && 0 <= lo && lo + n < |src|
    && (RowStride(w) == n || RowStride(w) == n + 1)
    && usePadding == (RowStride(w) == n + 1)
    && 0 <= i < 8 * RowStride(w)
  }

  /** The extra last byte of a padded row: the tail of source byte `n`, unpadded. */
  lemma TailBytePixel(src: seq<bv8>, lo: int, n: int, x: int, w: int, usePadding: bool, i: int)
    requires JoinedRow(src, lo, n, x, w, usePadding, i) && i / 8 == n
    ensures BitAt(Unpad(PadBits(w), src[lo + n] << Offset(x)), Offset(i))
      == if i < w then BitAt(src[lo + (x % 8 + i) / 8], Offset(x + i)) else 0
  {
    var p, u := PadBits(w), x % 8;
    PadStride(w);
    assert i == 8 * n + i % 8 && 8 * n <= u + w - 1 < 8 * n + 8;
    assert RowStride(w) == n + 1 && w + p == 8 * n + 8;
    assert (i % 8 + p < 8) == (i < w);
    UnpadPixel(p, src[lo + n] << Offset(x), i);
    if i < w {
      assert u + i % 8 < 8 && (u + i) / 8 == n;
      ShiftedPixel(src[lo + n], x, i);
    }
  }

  /** A joined byte `k < n`, unpadded when it ends a row without the extra byte. */
  lemma JoinedBytePixel(src: seq<bv8>, lo: int, n: int, x: int, w: int, usePadding: bool, i: int)
    requires JoinedRow(src, lo, n, x, w, usePadding, i) && i / 8 != n
    ensures var k, up, p := i / 8, Offset(x), PadBits(w);
      var m := MergeBytes(src[lo + k], src[lo + k + 1], up);
      BitAt(if k == n - 1 && !usePadding then Unpad(p, m) else m, Offset(i))
      == if i < w then BitAt(src[lo + (x % 8 + i) / 8], Offset(x + i)) else 0
  {
    var k, up, p, u := i / 8, Offset(x), PadBits(w), x % 8;
    PadStride(w);
    assert i == 8 * k + i % 8 && 8 * n <= u + w - 1 < 8 * n + 8 && k < n;
    assert (u + i) / 8 == if u + i % 8 < 8 then k else k + 1;
    var m := MergeBytes(src[lo + k], src[lo + k + 1], up);
    MergedPixel(src[lo + k], src[lo + k + 1], x, i);
    if k == n - 1 && !usePadding {
      assert w + p == 8 * k + 8;
      assert (i % 8 + p < 8) == (i < w);
      UnpadPixel(p, m, i);
    } else {
      assert i < w;
    }
  }

  /**
   * Byte `k` of the row `ExtractLine` writes for source bytes `start..end`:
   * the one shifted byte; the source byte itself when aligned; otherwise the
   * join of two neighbours or the shifted tail of the last one.
   */
  function LineByte(src: seq<bv8>, start: int, end: int, up: bv8, padding: int, usePadding: bool,
                    k: int): bv8
    requires up < 8 && 0 <= start <= end < |src| && 0 <= k < LineLength(end - start, up, usePadding)
  {
    if start == end then Unpad(padding, src[start] << up)
    else if up == 0 then AlignedByte(src, start, end, padding, usePadding, k)
    else if k == end - start then Unpad(padding, src[end] << up)
    else CopyByte(src, start, end - start, up, padding, usePadding, k)
  }

  /** `ExtractLine` is `LineByte` byte by byte. */
  lemma ExtractLineByte(src: seq<bv8>, start: int, end: int, up: bv8, padding: int, usePadding: bool,
                        k: int)
    requires up < 8 && 0 <= start <= end < |src| && 0 <= k < LineLength(end - start, up, usePadding)
    ensures var line := ExtractLine(src, start, end, up, padding, usePadding);
      |line| == LineLength(end - start, up, usePadding)
      && line[k] == LineByte(src, start, end, up, padding, usePadding, k)
  {
    ExtractLineLen(src, start, end, up, padding, usePadding);
    if start < end && up == 0 {
      AlignedLineByteAt(src, start, end, padding, usePadding, k);
    } else if start < end {
      CopyLineByteAt(src, start, end - start, up, padding, usePadding, k);
    }
  }

  /**
   * Pixel `i` of the row extract writes from source bytes `lo..lo + n`, for a
   * region `w` pixels wide starting at column `x`, is source pixel `x + i`;
   * the pad bits after the last pixel are 0.
   */
  predicate RowPixelAgrees(src: seq<bv8>, lo: int, n: int, x: int, w: int, usePadding: bool, i: int)
    requires 1 <= w && 0 <= n && 0 <= lo && lo + n < |src|
    requires 0 <= i < 8 * RowStride(w)
  {
    n == (x % 8 + w - 1) / 8
    && LineLength(n, Offset(x), usePadding) == RowStride(w)
    && BitAt(LineByte(src, lo, lo + n, Offset(x), PadBits(w), usePadding, i / 8), Offset(i))
       == if i < w then BitAt(src[lo + (x % 8 + i) / 8], Offset(x + i)) else 0
  }

  lemma RowPixels(src: seq<bv8>, lo: int, n: int, x: int, w: int, usePadding: bool, i: int)
    requires 1 <= w && n == (x % 8 + w - 1) / 8 && 0 <= lo && lo + n < |src|
    requires RowStride(w) == n || RowStride(w) == n + 1
    requires usePadding == (RowStride(w) == n + 1)
    requires x % 8 == 0 ==> usePadding
    requires 0 <= i < 8 * RowStride(w)
    ensures RowPixelAgrees(src, lo, n, x, w, usePadding, i)
  {
    OffsetZero(x);
    assert LineLength(n, Offset(x), usePadding) == RowStride(w);
    if n == 0 {
      SingleBytePixel(src, lo, x, w, i);
    } else if x % 8 == 0 {
      AlignedBytePixel(src, lo, n, x, w, i);
    } else if i / 8 == n {
      TailBytePixel(src, lo, n, x, w, usePadding, i);
    } else {
      JoinedBytePixel(src, lo, n, x, w, usePadding, i);
    }
  }

  /** The number of bytes `ExtractLine` writes for a row spanning source bytes `start..start + n`. */
  function LineLength(n: int, up: bv8, usePadding: bool): int
  {
    if n == 0 || up == 0 || usePadding then n + 1 else n
  }

  lemma ExtractLineLen(src: seq<bv8>, lo: int, hi: int, up: bv8, padding: int, usePadding: bool)
    requires up < 8 && 0 <= lo <= hi < |src|
    ensures |ExtractLine(src, lo, hi, up, padding, usePadding)| == LineLength(hi - lo, up, usePadding)
  {
  }

  /** For extract's rows the line length is the destination stride. */
  lemma ExtractLineLength(roi: Rectangle, srcStride: int)
    requires 1 <= roi.width
    ensures LineLength(ExtractEnd(roi, srcStride) - ExtractStart(roi, srcStride), Offset(roi.x),
                       UsePadding(roi, srcStride)) == RowStride(roi.width)
  {
    ExtractSpan(roi, srcStride);
    OffsetZero(roi.x);
  }

  /** The rows one after another. */
  function Flatten(lines: seq<seq<bv8>>): (r: seq<bv8>)
  {
    if |lines| == 0 then [] else lines[0] + Flatten(lines[1..])
  }

  /** Every row is `len` bytes long. */
  predicate AllLength(lines: seq<seq<bv8>>, len: int)
  {
    forall i :: 0 <= i < |lines| ==> |lines[i]| == len
  }

  /** Rows of equal length `len` flatten to `|lines| * len` bytes. */
  lemma {:induction false} FlattenLength(lines: seq<seq<bv8>>, len: int)
    requires AllLength(lines, len)
    ensures |Flatten(lines)| == |lines| * len
  {
    if |lines| > 0 {
      FlattenLength(lines[1..], len);
      MulSucc(|lines| - 1, len);
    }
  }

  /**
   * `p` is `j` times `len`, for `j >= 0`, spelled out as `j` additions so
   * that row offsets can be reasoned about without multiplication.
   */
  predicate Times(j: int, len: int, p: int)
    decreases j
  {
    0 <= j && if j == 0 then p == 0 else Times(j - 1, len, p - len)
  }

  lemma {:induction false} TimesMul(j: int, len: int)
    requires 0 <= j
    ensures Times(j, len, j * len)
  {
    if j > 0 {
      TimesMul(j - 1, len);
      MulSucc(j - 1, len);
    }
  }

  /** Byte `k` of row `j` of rows `len` bytes long is byte `j * len + k` of the flattened rows. */
  lemma {:induction false} FlattenByte(lines: seq<seq<bv8>>, len: int, j: int, jd: int, k: int)
    requires AllLength(lines, len)
    requires j < |lines| && Times(j, len, jd) && 0 <= k < len
    ensures 0 <= jd + k < |Flatten(lines)| && Flatten(lines)[jd + k] == lines[j][k]
  {
    var rest := lines[1..];
    assert Flatten(lines) == lines[0] + Flatten(rest);
    if j == 0 {
      assert Flatten(lines)[k] == lines[0][k];
    } else {
      FlattenByte(rest, len, j - 1, jd - len, k);
      assert Flatten(lines)[jd + k] == Flatten(rest)[jd - len + k];
    }
  }

  /**
   * The `rows` rows extract writes, the first of which reads source bytes
   * `lo..hi`, each next one `stride` bytes further on.
   */
  function ExtractLines(src: seq<bv8>, stride: int, lo: int, hi: int, up: bv8, padding: int,
                        usePadding: bool, rows: int): (r: seq<seq<bv8>>)
    requires up < 8 && lo <= hi && RowsFit(lo, hi, rows, stride, |src|)
    ensures |r| == if rows <= 0 then 0 else rows
    decreases rows
  {
    if rows <= 0 then []
    else
      [ExtractLine(src, lo, hi, up, padding, usePadding)]
      + ExtractLines(src, stride, lo + stride, hi + stride, up, padding, usePadding, rows - 1)
  }

  /**
   * Row `j` reads source bytes `a..b`, `j` strides below the first row's;
   * `js` is `j * stride`.
   */
  lemma {:induction false} ExtractLinesAt(src: seq<bv8>, stride: int, lo: int, hi: int, up: bv8,
                                          padding: int, usePadding: bool, rows: int, j: int, js: int,
                                          a: int, b: int)
    requires up < 8 && lo <= hi && RowsFit(lo, hi, rows, stride, |src|)
    requires j < rows && Times(j, stride, js) && a == lo + js && b == hi + js
    ensures 0 <= a <= b < |src|
    ensures ExtractLines(src, stride, lo, hi, up, padding, usePadding, rows)[j]
      == ExtractLine(src, a, b, up, padding, usePadding)
    decreases j
  {
    if j == 0 {
      assert a == lo && b == hi;
      ExtractLinesFirst(src, stride, lo, hi, up, padding, usePadding, rows);
    } else {
      ExtractLinesRest(src, stride, lo, hi, up, padding, usePadding, rows, j);
      ExtractLinesAt(src, stride, lo + stride, hi + stride, up, padding, usePadding, rows - 1,
                     j - 1, js - stride, a, b);
    }
  }

  /** Row 0 is the first row. */
  lemma ExtractLinesFirst(src: seq<bv8>, stride: int, lo: int, hi: int, up: bv8, padding: int,
                          usePadding: bool, rows: int)
    requires up < 8 && lo <= hi && RowsFit(lo, hi, rows, stride, |src|) && 0 < rows
    ensures 0 <= lo <= hi < |src|
    ensures ExtractLines(src, stride, lo, hi, up, padding, usePadding, rows)[0]
      == ExtractLine(src, lo, hi, up, padding, usePadding)
  {
  }

  /** Row `j > 0` is row `j - 1` of the rows that follow the first. */
  lemma ExtractLinesRest(src: seq<bv8>, stride: int, lo: int, hi: int, up: bv8, padding: int,
                         usePadding: bool, rows: int, j: int)
    requires up < 8 && lo <= hi && RowsFit(lo, hi, rows, stride, |src|) && 0 < j < rows
    ensures RowsFit(lo + stride, hi + stride, rows - 1, stride, |src|)
    ensures ExtractLines(src, stride, lo, hi, up, padding, usePadding, rows)[j]
      == ExtractLines(src, stride, lo + stride, hi + stride, up, padding, usePadding, rows - 1)[j - 1]
  {
  }

  /** Every row is `LineLength` bytes long. */
  lemma {:induction false} ExtractLinesLength(src: seq<bv8>, stride: int, lo: int, hi: int, up: bv8,
                                              padding: int, usePadding: bool, rows: int)
    requires up < 8 && lo <= hi && RowsFit(lo, hi, rows, stride, |src|)
    ensures AllLength(ExtractLines(src, stride, lo, hi, up, padding, usePadding, rows),
                      LineLength(hi - lo, up, usePadding))
    decreases rows
  {
    if rows > 0 {
      var lines := ExtractLines(src, stride, lo, hi, up, padding, usePadding, rows);
      var rest := ExtractLines(src, stride, lo + stride, hi + stride, up, padding, usePadding, rows - 1);
      assert lines == [ExtractLine(src, lo, hi, up, padding, usePadding)] + rest;
      ExtractLineLen(src, lo, hi, up, padding, usePadding);
      ExtractLinesLength(src, stride, lo + stride, hi + stride, up, padding, usePadding, rows - 1);
      assert (hi + stride) - (lo + stride) == hi - lo;
      forall i | 0 <= i < |lines|
        ensures |lines[i]| == LineLength(hi - lo, up, usePadding)
      {
        if i == 0 {
          assert lines[0] == ExtractLine(src, lo, hi, up, padding, usePadding);
        } else {
          assert lines[i] == rest[i - 1];
        }
      }
    }
  }

  /** The destination bytes of the rows. */
  function ExtractRows(src: seq<bv8>, stride: int, lo: int, hi: int, up: bv8, padding: int,
                       usePadding: bool, rows: int): seq<bv8>
    requires up < 8 && lo <= hi && RowsFit(lo, hi, rows, stride, |src|)
  {
    Flatten(ExtractLines(src, stride, lo, hi, up, padding, usePadding, rows))
  }

  lemma ExtractRowsLength(src: seq<bv8>, stride: int, lo: int, hi: int, up: bv8,
                          padding: int, usePadding: bool, rows: int)
    requires up < 8 && lo <= hi && RowsFit(lo, hi, rows, stride, |src|)
    ensures |ExtractRows(src, stride, lo, hi, up, padding, usePadding, rows)|
      == (if rows <= 0 then 0 else rows * LineLength(hi - lo, up, usePadding))
  {
    ExtractLinesLength(src, stride, lo, hi, up, padding, usePadding, rows);
    FlattenLength(ExtractLines(src, stride, lo, hi, up, padding, usePadding, rows),
                  LineLength(hi - lo, up, usePadding));
  }

  /** One step of `ExtractRows`: the first row, then the rest, which start at `lo2..hi2`. */
  lemma ExtractRowsStep(src: seq<bv8>, stride: int, lo: int, hi: int, up: bv8, padding: int,
                        usePadding: bool, rows: int, lo2: int, hi2: int)
    requires up < 8 && lo <= hi && 1 <= rows && RowsFit(lo, hi, rows, stride, |src|)
    requires lo2 == lo + stride && hi2 == hi + stride
    ensures lo2 <= hi2 && RowsFit(lo2, hi2, rows - 1, stride, |src|)
    ensures ExtractRows(src, stride, lo, hi, up, padding, usePadding, rows)
      == ExtractLine(src, lo, hi, up, padding, usePadding)
         + ExtractRows(src, stride, lo2, hi2, up, padding, usePadding, rows - 1)
  {
    var lines := ExtractLines(src, stride, lo, hi, up, padding, usePadding, rows);
    assert lines[1..] == ExtractLines(src, stride, lo2, hi2, up, padding, usePadding, rows - 1);
  }

  /**
   * Byte `k` of row `j` of `ExtractRows` is byte `k` of the row extracted `j`
   * strides down; `jd` and `js` are `j` line lengths and `j` strides.
   */
  lemma ExtractRowsByte(src: seq<bv8>, stride: int, lo: int, hi: int, up: bv8, padding: int,
                        usePadding: bool, rows: int, j: int, k: int, jd: int, js: int, a: int, b: int)
    requires up < 8 && lo <= hi && RowsFit(lo, hi, rows, stride, |src|)
    requires j < rows && 0 <= k < LineLength(hi - lo, up, usePadding)
    requires Times(j, LineLength(hi - lo, up, usePadding), jd) && Times(j, stride, js)
    requires a == lo + js && b == hi + js && 0 <= a && b < |src|
    ensures 0 <= jd + k < |ExtractRows(src, stride, lo, hi, up, padding, usePadding, rows)|
    ensures ExtractRows(src, stride, lo, hi, up, padding, usePadding, rows)[jd + k]
      == LineByte(src, a, b, up, padding, usePadding, k)
  {
    ExtractLineByte(src, a, b, up, padding, usePadding, k);
    var lines := ExtractLines(src, stride, lo, hi, up, padding, usePadding, rows);
    ExtractLinesLength(src, stride, lo, hi, up, padding, usePadding, rows);
    ExtractLinesAt(src, stride, lo, hi, up, padding, usePadding, rows, j, js, a, b);
    FlattenByte(lines, LineLength(hi - lo, up, usePadding), j, jd, k);
  }

  /**
   * The whole destination buffer extract builds: the rows cut out of the
   * source bytes followed by a 0 byte.
   */
  function ExtractBytes(roi: Rectangle, src: seq<bv8>, srcStride: int): (r: seq<bv8>)
    requires ExtractSucceeds(roi, src, srcStride)
    ensures |r| == roi.height * RowStride(roi.width)
  {
    if 1 <= roi.width && 1 <= roi.height then
      var s, e := ExtractStart(roi, srcStride), ExtractEnd(roi, srcStride);
      ExtractSpan(roi, srcStride);
      ExtractLineLength(roi, srcStride);
      RowsFitWiden(s, e, roi.height, srcStride, ReadLimit(roi, srcStride, |src|), |src| + 1);
      ExtractRowsLength(WithZeroTail(src), srcStride, s, e, Offset(roi.x), PadBits(roi.width),
                        UsePadding(roi, srcStride), roi.height);
      ExtractRows(WithZeroTail(src), srcStride, s, e, Offset(roi.x), PadBits(roi.width),
                  UsePadding(roi, srcStride), roi.height)
    else Zeros(roi.height * RowStride(roi.width))
  }

  /** Row `j` of the rows that fit starts `j` strides after the first. */
  lemma {:induction false} RowsFitRow(lo: int, hi: int, rows: int, stride: int, len: int, j: int,
                                      js: int)
    requires RowsFit(lo, hi, rows, stride, len) && j < rows && Times(j, stride, js)
    ensures 0 <= lo + js && hi + js < len
    decreases j
  {
    if j > 0 {
      RowsFitRow(lo + stride, hi + stride, rows - 1, stride, len, j - 1, js - stride);
    }
  }

  /**
   * Pixel `i` of row `j` of `rows` rows of a region `w` pixels wide starting
   * at column `x` is pixel `x + i` of the source row `j` strides below the
   * first; the pad bits are 0.  `jd` and `js` are `j` destination strides
   * and `j` source strides.
   */
  lemma RowsGridPixel(src: seq<bv8>, stride: int, lo: int, hi: int, x: int, w: int, usePadding: bool,
                      rows: int, i: int, j: int, jd: int, js: int, k: int, si: int)
    requires 1 <= w && hi - lo == (x % 8 + w - 1) / 8 && lo <= hi
    requires RowStride(w) == hi - lo || RowStride(w) == hi - lo + 1
    requires usePadding == (RowStride(w) == hi - lo + 1) && (x % 8 == 0 ==> usePadding)
    requires RowsFit(lo, hi, rows, stride, |src|)
    requires 0 <= i < 8 * RowStride(w) && j < rows && Times(j, RowStride(w), jd) && Times(j, stride, js)
    requires k == i / 8 && si == lo + js + (x % 8 + i) / 8
    ensures var rs := ExtractRows(src, stride, lo, hi, Offset(x), PadBits(w), usePadding, rows);
      0 <= jd + k < |rs|
      && (i < w ==> 0 <= si < |src|)
      && BitAt(rs[jd + k], Offset(i)) == if i < w then BitAt(src[si], Offset(x + i)) else 0
  {
    var n, up, pad := hi - lo, Offset(x), PadBits(w);
    OffsetZero(x);
    assert LineLength(n, up, usePadding) == RowStride(w);
    RowsFitRow(lo, hi, rows, stride, |src|, j, js);
    var a := lo + js;
    ExtractRowsByte(src, stride, lo, hi, up, pad, usePadding, rows, j, k, jd, js, a, a + n);
    LinePixelAt(src, a, n, x, w, usePadding, i, k, si);
  }

  /**
   * `RowPixels` for the row that starts at source byte `a`: bit `i` of its
   * byte `k` is pixel `x + i` of source byte `si`, which lies in `src`.
   */
  lemma LinePixelAt(src: seq<bv8>, a: int, n: int, x: int, w: int, usePadding: bool, i: int, k: int,
                    si: int)
    requires 1 <= w && n == (x % 8 + w - 1) / 8 && 0 <= a && a + n < |src|
    requires RowStride(w) == n || RowStride(w) == n + 1
    requires usePadding == (RowStride(w) == n + 1) && (x % 8 == 0 ==> usePadding)
    requires 0 <= i < 8 * RowStride(w) && k == i / 8 && si == a + (x % 8 + i) / 8
    ensures 0 <= k < LineLength(n, Offset(x), usePadding)
    ensures i < w ==> 0 <= si < |src|
    ensures BitAt(LineByte(src, a, a + n, Offset(x), PadBits(w), usePadding, k), Offset(i))
      == if i < w then BitAt(src[si], Offset(x + i)) else 0
  {
    if i < w {
      DivMonotone(x % 8 + i, x % 8 + w - 1);
    }
    RowPixels(src, a, n, x, w, usePadding, i);
  }

  /**
   * Pixel (i, j) of the bitmap extract builds is pixel `roi.x + i` of the
   * source row `j` strides below the region's first; `js` is `j * srcStride`.
   */
  lemma ExtractGridPixel(roi: Rectangle, src: seq<bv8>, srcStride: int, i: int, j: int, js: int,
                         si: int)
    requires ExtractSucceeds(roi, src, srcStride)
    requires 0 <= i < 8 * RowStride(roi.width) && 0 <= j < roi.height && js == j * srcStride
    requires si == ExtractStart(roi, srcStride) + js + (roi.x % 8 + i) / 8
    ensures var p := GridPixel(ExtractBytes(roi, src, srcStride), RowStride(roi.width), roi.height, i, j);
      if i < roi.width then 0 <= si <= |src| && p == BitAt(WithZeroTail(src)[si], Offset(roi.x + i))
      else p == 0
  {
    var s, e, u := ExtractStart(roi, srcStride), ExtractEnd(roi, srcStride), UsePadding(roi, srcStride);
    ExtractBytesRows(roi, src, srcStride);
    RowsGridCell(WithZeroTail(src), srcStride, s, e, roi.x, roi.width, u, roi.height, i, j, js, si);
  }

  /** Pixel (i, j) of the rows `ExtractRows` builds, read as a bitmap raster. */
  lemma RowsGridCell(src: seq<bv8>, stride: int, lo: int, hi: int, x: int, w: int, usePadding: bool,
                     rows: int, i: int, j: int, js: int, si: int)
    requires 1 <= w && hi - lo == (x % 8 + w - 1) / 8 && lo <= hi
    requires RowStride(w) == hi - lo || RowStride(w) == hi - lo + 1
    requires usePadding == (RowStride(w) == hi - lo + 1) && (x % 8 == 0 ==> usePadding)
    requires RowsFit(lo, hi, rows, stride, |src|)
    requires 0 <= i < 8 * RowStride(w) && 0 <= j < rows && js == j * stride
    requires si == lo + js + (x % 8 + i) / 8
    ensures var rs := ExtractRows(src, stride, lo, hi, Offset(x), PadBits(w), usePadding, rows);
      |rs| == rows * RowStride(w)
      && var p := GridPixel(rs, RowStride(w), rows, i, j);
      if i < w then 0 <= si < |src| && p == BitAt(src[si], Offset(x + i)) else p == 0
  {
    var ds := RowStride(w);
    var rs := ExtractRows(src, stride, lo, hi, Offset(x), PadBits(w), usePadding, rows);
    OffsetZero(x);
    assert LineLength(hi - lo, Offset(x), usePadding) == ds;
    ExtractRowsLength(src, stride, lo, hi, Offset(x), PadBits(w), usePadding, rows);
    var jd, k := j * ds, i / 8;
    TimesMul(j, ds);
    TimesMul(j, stride);
    RowsGridPixel(src, stride, lo, hi, x, w, usePadding, rows, i, j, jd, js, k, si);
    GridPixelAt(rs, ds, rows, i, j, jd, k);
  }

  /** A non-empty region's extract is its `ExtractRows`, whose arguments meet `RowsGridPixel`'s demands. */
  lemma ExtractBytesRows(roi: Rectangle, src: seq<bv8>, srcStride: int)
    requires ExtractSucceeds(roi, src, srcStride) && 1 <= roi.height && 1 <= roi.width
    ensures var s, e, ds := ExtractStart(roi, srcStride), ExtractEnd(roi, srcStride), RowStride(roi.width);
      var u := UsePadding(roi, srcStride);
      e - s == (roi.x % 8 + roi.width - 1) / 8 && s <= e
      && (ds == e - s || ds == e - s + 1)
      && u == (ds == e - s + 1) && (roi.x % 8 == 0 ==> u)
      && RowsFit(s, e, roi.height, srcStride, |src| + 1)
      && ExtractBytes(roi, src, srcStride)
         == ExtractRows(WithZeroTail(src), srcStride, s, e, Offset(roi.x), PadBits(roi.width), u, roi.height)
  {
    ExtractSpan(roi, srcStride);
    RowsFitWiden(ExtractStart(roi, srcStride), ExtractEnd(roi, srcStride), roi.height, srcStride,
                 ReadLimit(roi, srcStride, |src|), |src| + 1);
  }

  /**
   * The bitmap extract builds holds the region's pixels: pixel (i, j) is
   * source pixel (roi.x + i, roi.y + j), a pixel of the byte just past the
   * buffer is 0, and the pad bits of every row are 0.
   */
  lemma ExtractPixels(roi: Rectangle, src: seq<bv8>, srcStride: int, i: int, j: int)
    requires ExtractSucceeds(roi, src, srcStride)
    requires 0 <= i < 8 * RowStride(roi.width) && 0 <= j < roi.height
    ensures var p := GridPixel(ExtractBytes(roi, src, srcStride), RowStride(roi.width), roi.height, i, j);
      if i < roi.width then
        var b := ByteIndex(srcStride, roi.x + i, roi.y + j);
        0 <= b <= |src|
        && (b < |src| ==> p == PixelOf(src, srcStride, roi.x + i, roi.y + j))
        && (b == |src| ==> p == 0)
      else p == 0
  {
    var s, js := ExtractStart(roi, srcStride), j * srcStride;
    var si := s + js + (roi.x % 8 + i) / 8;
    var p := GridPixel(ExtractBytes(roi, src, srcStride), RowStride(roi.width), roi.height, i, j);
    ExtractGridPixel(roi, src, srcStride, i, j, js, si);
    if i < roi.width {
      RowSourceByte(roi.x, roi.y, srcStride, i, j, s, js);
      if si < |src| {
        assert p == BitAt(src[si], Offset(roi.x + i));
        SourcePixelAt(src, srcStride, roi.x + i, roi.y + j, si);
      } else {
        BitAtZero(Offset(roi.x + i));
      }
    }
  }

  /**
   * A row that ends at the buffer's end: an 8-pixel-wide strip of a
   * one-byte, 8-pixel-wide source, cut out from an unaligned column `x`,
   * is the byte shifted up by `x` with 0 after it.
   */
  lemma ExtractAtBufferEnd(b: bv8, x: int)
    requires 0 < x < 8
    ensures ExtractSucceeds(Rectangle(x, 0, 8, 1), [b], 1)
    ensures ExtractBytes(Rectangle(x, 0, 8, 1), [b], 1) == [b << Offset(x)]
  {
    BufferEndBytes(b, x);
    BufferEndRows(b, Offset(x));
  }

  /** `ExtractAtBufferEnd`'s extract succeeds and builds the rows its one row reads. */
  lemma BufferEndBytes(b: bv8, x: int)
    requires 0 < x < 8
    ensures 0 < Offset(x)
    ensures ExtractSucceeds(Rectangle(x, 0, 8, 1), [b], 1)
    ensures ExtractBytes(Rectangle(x, 0, 8, 1), [b], 1)
      == ExtractRows(WithZeroTail([b]), 1, 0, 1, Offset(x), 0, false, 1)
  {
    BufferEndRow(x);
  }

  /** The rows of `ExtractAtBufferEnd`, for a column offset `up`. */
  lemma BufferEndRows(b: bv8, up: bv8)
    requires 0 < up < 8
    ensures RowsFit(0, 1, 1, 1, 2)
    ensures ExtractRows(WithZeroTail([b]), 1, 0, 1, up, 0, false, 1) == [b << up]
  {
    BufferEndLine(b, up);
    ExtractRowsStep(WithZeroTail([b]), 1, 0, 1, up, 0, false, 1, 1, 2);
  }

  /** The row of `ExtractAtBufferEnd`: source bytes 0 and 1, unaligned, with no extra last byte. */
  lemma BufferEndRow(x: int)
    requires 0 < x < 8
    ensures var roi := Rectangle(x, 0, 8, 1);
      && ExtractStart(roi, 1) == 0 && ExtractEnd(roi, 1) == 1 && 0 < Offset(x)
      && ReadLimit(roi, 1, 1) == 2 && RowsFit(0, 1, 1, 1, 2)
      && PadBits(8) == 0 && !UsePadding(roi, 1)
  {
    OffsetZero(x);
  }

  /** The one row of `ExtractAtBufferEnd`: a single pass of copyLine, on the buffer's last byte. */
  lemma BufferEndLine(b: bv8, up: bv8)
    requires 0 < up < 8
    ensures ExtractLine(WithZeroTail([b]), 0, 1, up, 0, false) == [b << up]
  {
    var sx := WithZeroTail([b]);
    CopyLineByteAt(sx, 0, 1, up, 0, false, 0);
    MergeZero(b, up);
    UnpadShifted(0, b, up);
  }






  /** Source pixel (x + i, y + j) lies in the byte the extracted row `j` reads for pixel `i`. */
  lemma RowSourceByte(x: int, y: int, stride: int, i: int, j: int, s: int, js: int)
    requires 0 <= i && s == ByteIndex(stride, x, y) && js == j * stride
    ensures ByteIndex(stride, x + i, y + j) == s + js + (x % 8 + i) / 8
  {
    assert (y + j) * stride == y * stride + j * stride;
    var q, u := x / 8, x % 8;
    assert x + i == 8 * q + (u + i);
    assert (x + i) / 8 == q + (u + i) / 8;
  }

  lemma SourcePixelAt(src: seq<bv8>, stride: int, x: int, y: int, si: int)
    requires ByteIndex(stride, x, y) == si && 0 <= si < |src|
    ensures 0 <= ByteIndex(stride, x, y) < |src| && PixelOf(src, stride, x, y) == BitAt(src[si], Offset(x))
  {
  }

  lemma DivMonotone(a: int, b: int)
    requires 0 <= a <= b
    ensures a / 8 <= b / 8
  {
    assert a == 8 * (a / 8) + a % 8 && b == 8 * (b / 8) + b % 8;
  }

  lemma MulSucc(a: int, c: int)
    ensures (a + 1) * c == a * c + c
  {
  }

  /** `bytes` written over `d` from index `base` on. */
  function Overwrite(d: seq<bv8>, base: int, bytes: seq<bv8>): (r: seq<bv8>)
    requires 0 <= base && base + |bytes| <= |d|
    ensures |r| == |d|
  {
    seq(|d|, i requires 0 <= i < |d| => if base <= i < base + |bytes| then bytes[i - base] else d[i])
  }

  /** Writing one more byte of a line extends the written prefix by that byte. */
  lemma OverwriteExtend(d: seq<bv8>, base: int, line: seq<bv8>, n: int)
    requires 0 <= n < |line| && 0 <= base && base + |line| <= |d|
    ensures Overwrite(d, base, line[..n])[base + n := line[n]] == Overwrite(d, base, line[..n + 1])
  {
  }

  /** `setByte` of byte `n` of a line whose bytes before it are written. */
  method WriteLineByte(dst: Bitmap, index: int, value: bv8, ghost d0: seq<bv8>, ghost base: int,
                       ghost line: seq<bv8>, ghost n: int)
    requires 0 <= n < |line| && 0 <= base && base + |line| <= |d0| == dst.bitmap.Length
    requires index == base + n && value == line[n]
    requires dst.bitmap[..] == Overwrite(d0, base, line[..n])
    modifies dst.bitmap
    ensures dst.bitmap[..] == Overwrite(d0, base, line[..n + 1])
  {
    OverwriteExtend(d0, base, line, n);
    dst.SetByte(index, value);
  }

  /** Writing over a byte that already holds the new value changes nothing. */
  lemma OverwriteKeep(d: seq<bv8>, base: int, line: seq<bv8>, n: int)
    requires 0 <= n < |line| && 0 <= base && base + |line| <= |d|
    requires d[base + n] == line[n]
    ensures Overwrite(d, base, line[..n]) == Overwrite(d, base, line[..n + 1])
  {
    OverwriteExtend(d, base, line, n);
    assert Overwrite(d, base, line[..n])[base + n] == d[base + n];
  }

  /** Writing a row after the rows before it, over zeros, appends the row. */
  lemma OverwriteAppend(done: seq<bv8>, rest: nat, line: seq<bv8>)
    requires |line| <= rest
    ensures Overwrite(done + Zeros(rest), |done|, line) == (done + line) + Zeros(rest - |line|)
  {
  }




  /** Joining a byte to a 0 byte shifts it up. */
  lemma MergeZero(a: bv8, up: bv8)
    requires 0 < up < 8
    ensures MergeBytes(a, 0, up) == a << up
  {
  }

  /** A byte shifted up by `up` has no pixel in its last `padding <= up` bits to clear. */
  lemma UnpadShifted(padding: int, a: bv8, up: bv8)
    requires 0 <= padding <= up as int && up < 8
    ensures Unpad(padding, a << up) == a << up
  {
    var q := padding as bv8;
    assert padding % 32 == padding;
    assert (a << up) >> q << q == a << up by {
      assert a << up == (a << (up - q)) << q;
    }
  }

  /** A byte of copyLine whose next byte is still in the buffer. */
  lemma CopyLineInBuffer(sb: seq<bv8>, sourceOffset: int, count: int, up: bv8, padding: int,
                         usePadding: bool, k: int)
    requires 0 < up < 8 && 0 <= k < count
    requires 0 <= sourceOffset && sourceOffset + count <= |sb| && sourceOffset + k + 1 < |sb|
    ensures var line := CopyLineBytes(WithZeroTail(sb), sourceOffset, count, up, padding, usePadding);
      var v := MergeBytes(sb[sourceOffset + k], sb[sourceOffset + k + 1], up);
      && line[k] == (if k == count - 1 && !usePadding then Unpad(padding, v) else v)
      && (k == count - 1 && usePadding ==> line[count] == Unpad(padding, sb[sourceOffset + count] << up))
  {
    var sx := WithZeroTail(sb);
    CopyLineByteAt(sx, sourceOffset, count, up, padding, usePadding, k);
    if k == count - 1 && usePadding {
      CopyLineByteAt(sx, sourceOffset, count, up, padding, usePadding, count);
    }
  }

  /**
   * The last byte of a row that is the last byte of the buffer: joined to
   * the 0 after the buffer it is shifted up alone, which unpadding leaves
   * as it is, and the extra byte after it is 0.
   */
  lemma CopyLineBufferEnd(sb: seq<bv8>, sourceOffset: int, count: int, up: bv8, padding: int,
                          usePadding: bool)
    requires 0 < up < 8 && 0 < count
    requires 0 <= sourceOffset && sourceOffset + count == |sb|
    requires !usePadding ==> 0 <= padding < up as int
    ensures var line := CopyLineBytes(WithZeroTail(sb), sourceOffset, count, up, padding, usePadding);
      && line[count - 1] == sb[|sb| - 1] << up
      && (usePadding ==> line[count] == 0)
  {
    var sx := WithZeroTail(sb);
    CopyLineByteAt(sx, sourceOffset, count, up, padding, usePadding, count - 1);
    MergeZero(sb[|sb| - 1], up);
    if !usePadding {
      UnpadShifted(padding, sb[|sb| - 1], up);
    } else {
      CopyLineByteAt(sx, sourceOffset, count, up, padding, usePadding, count);
    }
  }

  /**
   * `copyLine(...)`: writes the bytes of one unaligned row, read from
   * `sourceOffset` on, into `dst` from `targetOffset` on.  While a byte has
   * a next one in the buffer it is joined to that byte's head; a last byte
   * of the buffer is shifted up alone, which leaves the bytes `CopyLineBytes`
   * gives for the buffer followed by a 0 byte.  In that case no extra last
   * byte is written, and the one there must already be 0.
   */
  method CopyLine(src: Bitmap, dst: Bitmap, sourceUpShift: bv8, padding: int,
                  firstSourceByteOfLine: int, lastSourceByteOfLine: int, usePadding: bool,
                  sourceOffset: int, targetOffset: int)
    requires src.bitmap != dst.bitmap
    requires 0 < sourceUpShift < 8 && firstSourceByteOfLine < lastSourceByteOfLine
    requires 0 <= sourceOffset
    requires sourceOffset + (lastSourceByteOfLine - firstSourceByteOfLine) <= src.bitmap.Length
    requires !usePadding ==> 0 <= padding < sourceUpShift as int
    requires 0 <= targetOffset
    requires targetOffset + |CopyLineBytes(WithZeroTail(src.bitmap[..]), sourceOffset,
      lastSourceByteOfLine - firstSourceByteOfLine, sourceUpShift, padding, usePadding)|
      <= dst.bitmap.Length
    requires usePadding && sourceOffset + (lastSourceByteOfLine - firstSourceByteOfLine) == src.bitmap.Length
      ==> dst.bitmap[targetOffset + (lastSourceByteOfLine - firstSourceByteOfLine)] == 0
    modifies dst.bitmap
    ensures dst.bitmap[..] == Overwrite(old(dst.bitmap[..]), targetOffset,
      CopyLineBytes(WithZeroTail(src.bitmap[..]), sourceOffset, lastSourceByteOfLine - firstSourceByteOfLine,
                    sourceUpShift, padding, usePadding))
  {
    var count := lastSourceByteOfLine - firstSourceByteOfLine;
    ghost var sb := src.bitmap[..];
    ghost var sx := WithZeroTail(sb);
    ghost var line := CopyLineBytes(sx, sourceOffset, count, sourceUpShift, padding, usePadding);
    ghost var d0 := dst.bitmap[..];
    var so, to := sourceOffset, targetOffset;
    var x := firstSourceByteOfLine;
    ghost var written := 0;
    while x < lastSourceByteOfLine
      invariant src.bitmap[..] == sb
      invariant firstSourceByteOfLine <= x <= lastSourceByteOfLine
      invariant so == sourceOffset + (x - firstSourceByteOfLine)
      invariant to == targetOffset + (x - firstSourceByteOfLine)
      invariant x < lastSourceByteOfLine ==> written == x - firstSourceByteOfLine
      invariant x == lastSourceByteOfLine ==> written == |line|
      invariant 0 <= written <= |line|
      invariant dst.bitmap[..] == Overwrite(d0, targetOffset, line[..written])
    {
      var k := x - firstSourceByteOfLine;
      if so + 1 < src.bitmap.Length {
        CopyLineInBuffer(sb, sourceOffset, count, sourceUpShift, padding, usePadding, k);
        var isLastByte := x + 1 == lastSourceByteOfLine;
        var value := MergeBytes(src.bitmap[so], src.bitmap[so + 1], sourceUpShift);
        so := so + 1;
        if isLastByte && !usePadding {
          value := Unpad(padding, value);
        }
        WriteLineByte(dst, to, value, d0, targetOffset, line, k);
        to := to + 1;
        if isLastByte && usePadding {
          value := Unpad(padding, src.bitmap[so] << sourceUpShift);
          WriteLineByte(dst, to, value, d0, targetOffset, line, count);
          written := count + 1;
        } else {
          written := k + 1;
        }
      } else {
        // The last byte of the buffer, which ends the row.
        assert so + 1 == |sb| && k == count - 1;
        CopyLineBufferEnd(sb, sourceOffset, count, sourceUpShift, padding, usePadding);
        var value := src.bitmap[so] << sourceUpShift;
        so := so + 1;
        WriteLineByte(dst, to, value, d0, targetOffset, line, k);
        to := to + 1;
        if usePadding {
          assert d0[targetOffset + count] == 0;
          OverwriteKeep(d0, targetOffset, line, count);
          written := count + 1;
        } else {
          written := count;
        }
      }
      x := x + 1;
    }
    assert line[..written] == line;
  }

  lemma OverwriteEmpty(d: seq<bv8>, base: int)
    requires 0 <= base <= |d|
    ensures Overwrite(d, base, []) == d
  {
  }

  /**
   * Extract's byte-aligned row copy: source bytes `srcLineStartIdx..srcLineEndIdx`
   * as they are, the last one unpadded when `usePadding`.
   */
  method CopyAlignedLine(src: Bitmap, dst: Bitmap, padding: int, srcLineStartIdx: int,
                         srcLineEndIdx: int, usePadding: bool, dstLineStartIdx: int)
    requires src.bitmap != dst.bitmap
    requires 0 <= srcLineStartIdx < srcLineEndIdx < src.bitmap.Length
    requires 0 <= dstLineStartIdx
    requires dstLineStartIdx + (srcLineEndIdx + 1 - srcLineStartIdx) <= dst.bitmap.Length
    modifies dst.bitmap
    ensures dst.bitmap[..] == Overwrite(old(dst.bitmap[..]), dstLineStartIdx,
      ExtractLine(src.bitmap[..], srcLineStartIdx, srcLineEndIdx, 0, padding, usePadding))
  {
    ghost var line := ExtractLine(src.bitmap[..], srcLineStartIdx, srcLineEndIdx, 0, padding,
                                  usePadding);
    ghost var before := dst.bitmap[..];
    var srcIdx, dstIdx := srcLineStartIdx, dstLineStartIdx;
    var x := srcLineStartIdx;
    OverwriteEmpty(before, dstLineStartIdx);
    while x <= srcLineEndIdx
      invariant srcLineStartIdx <= x <= srcLineEndIdx + 1
      invariant srcIdx == x && dstIdx == dstLineStartIdx + (x - srcLineStartIdx)
      invariant dst.bitmap[..] == Overwrite(before, dstLineStartIdx, line[..x - srcLineStartIdx])
    {
      var value := src.bitmap[srcIdx];
      srcIdx := srcIdx + 1;
      if x == srcLineEndIdx && usePadding {
        value := Unpad(padding, value);
      }
      AlignedLineByteAt(src.bitmap[..], srcLineStartIdx, srcLineEndIdx, padding, usePadding,
                        x - srcLineStartIdx);
      assert value == line[x - srcLineStartIdx];
      OverwriteExtend(before, dstLineStartIdx, line, x - srcLineStartIdx);
      dst.SetByte(dstIdx, value);
      dstIdx := dstIdx + 1;
      x := x + 1;
    }
    assert line[..srcLineEndIdx + 1 - srcLineStartIdx] == line;
  }

  /** A row that ends inside the buffer reads nothing of the 0 byte after it. */
  lemma ExtractLineInBuffer(src: seq<bv8>, start: int, end: int, up: bv8, padding: int, usePadding: bool)
    requires up < 8 && 0 <= start <= end < |src| && (start == end || up == 0)
    ensures ExtractLine(WithZeroTail(src), start, end, up, padding, usePadding)
      == ExtractLine(src, start, end, up, padding, usePadding)
  {
  }

  /**
   * The body of extract's row loop: writes the bytes of one row, whose first
   * and last source bytes are `srcLineStartIdx` and `srcLineEndIdx`, from
   * `dstLineStartIdx` on, into a part of `dst` that is still 0.
   */
  method ExtractRowInto(src: Bitmap, dst: Bitmap, upShift: bv8, padding: int,
                        srcLineStartIdx: int, srcLineEndIdx: int, usePadding: bool,
                        dstLineStartIdx: int)
    requires src.bitmap != dst.bitmap && upShift < 8
    requires 0 <= srcLineStartIdx <= srcLineEndIdx
    requires srcLineEndIdx < src.bitmap.Length
      || (upShift != 0 && srcLineStartIdx < srcLineEndIdx == src.bitmap.Length)
    requires upShift != 0 && srcLineStartIdx < srcLineEndIdx && !usePadding ==> 0 <= padding < upShift as int
    requires 0 <= dstLineStartIdx
    requires dstLineStartIdx + |ExtractLine(WithZeroTail(src.bitmap[..]), srcLineStartIdx, srcLineEndIdx, upShift,
                                            padding, usePadding)| <= dst.bitmap.Length
    requires forall k :: dstLineStartIdx <= k < dst.bitmap.Length ==> dst.bitmap[k] == 0
    modifies dst.bitmap
    ensures dst.bitmap[..] == Overwrite(old(dst.bitmap[..]), dstLineStartIdx,
      ExtractLine(WithZeroTail(src.bitmap[..]), srcLineStartIdx, srcLineEndIdx, upShift, padding, usePadding))
  {
    ghost var line := ExtractLine(WithZeroTail(src.bitmap[..]), srcLineStartIdx, srcLineEndIdx, upShift,
                                  padding, usePadding);
    ghost var before := dst.bitmap[..];
    var srcIdx, dstIdx := srcLineStartIdx, dstLineStartIdx;
    if srcLineStartIdx == srcLineEndIdx {
      ExtractLineInBuffer(src.bitmap[..], srcLineStartIdx, srcLineEndIdx, upShift, padding, usePadding);
      var pixels := src.bitmap[srcIdx] << upShift;
      OverwriteExtend(before, dstIdx, line, 0);
      OverwriteEmpty(before, dstIdx);
      dst.SetByte(dstIdx, Unpad(padding, pixels));
      assert line[..1] == line;
    } else if upShift == 0 {
      ExtractLineInBuffer(src.bitmap[..], srcLineStartIdx, srcLineEndIdx, upShift, padding, usePadding);
      CopyAlignedLine(src, dst, padding, srcLineStartIdx, srcLineEndIdx, usePadding, dstLineStartIdx);
    } else {
      CopyLine(src, dst, upShift, padding, srcLineStartIdx, srcLineEndIdx, usePadding, srcIdx,
               dstIdx);
    }
  }

  /** The bytes after `done` in `done + Zeros(n)` are 0. */
  lemma ZeroTail(d: seq<bv8>, done: seq<bv8>, n: nat)
    requires d == done + Zeros(n)
    ensures forall k :: |done| <= k < |d| ==> d[k] == 0
  {
  }

  lemma ConcatAssoc(a: seq<bv8>, b: seq<bv8>, c: seq<bv8>)
    ensures a + (b + c) == (a + b) + c
  {
  }

  /**
   * One row of extract written after the rows before it, over the zeros
   * that follow them.
   */
  method AppendRow(src: Bitmap, dst: Bitmap, upShift: bv8, padding: int,
                   srcLineStartIdx: int, srcLineEndIdx: int, usePadding: bool,
                   dstLineStartIdx: int, ghost done: seq<bv8>, ghost rest: nat)
    requires src.bitmap != dst.bitmap && upShift < 8
    requires 0 <= srcLineStartIdx <= srcLineEndIdx
    requires srcLineEndIdx < src.bitmap.Length
      || (upShift != 0 && srcLineStartIdx < srcLineEndIdx == src.bitmap.Length)
    requires upShift != 0 && srcLineStartIdx < srcLineEndIdx && !usePadding ==> 0 <= padding < upShift as int
    requires |ExtractLine(WithZeroTail(src.bitmap[..]), srcLineStartIdx, srcLineEndIdx, upShift,
                          padding, usePadding)| <= rest
    requires dst.bitmap[..] == done + Zeros(rest) && dstLineStartIdx == |done|
    modifies dst.bitmap
    ensures var line := ExtractLine(WithZeroTail(src.bitmap[..]), srcLineStartIdx, srcLineEndIdx, upShift,
                                    padding, usePadding);
      dst.bitmap[..] == (done + line) + Zeros(rest - |line|)
  {
    ghost var line := ExtractLine(WithZeroTail(src.bitmap[..]), srcLineStartIdx, srcLineEndIdx, upShift,
                                  padding, usePadding);
    ZeroTail(dst.bitmap[..], done, rest);
    ExtractRowInto(src, dst, upShift, padding, srcLineStartIdx, srcLineEndIdx, usePadding, dstLineStartIdx);
    OverwriteAppend(done, rest, line);
  }

  /** Flattening rows `j..` is row `j` followed by the rows after it. */
  lemma FlattenFrom(lines: seq<seq<bv8>>, j: int)
    requires 0 <= j < |lines|
    ensures Flatten(lines[j..]) == lines[j] + Flatten(lines[j + 1..])
  {
    assert lines[j..][1..] == lines[j + 1..];
  }

  /**
   * One pass of extract's row loop: row `j` of `lines`, which reads source
   * bytes `s..e` (`js` is `j` strides), is appended to the rows `done`
   * before it, over the zeros that stand for the rows still to write.
   */
  method ExtractNextRow(src: Bitmap, dst: Bitmap, upShift: bv8, padding: int, usePadding: bool,
                        lo: int, hi: int, rows: int, s: int, e: int, dstLineStartIdx: int, left: int,
                        ghost sb: seq<bv8>, ghost limit: int, ghost lines: seq<seq<bv8>>,
                        ghost j: int, ghost js: int, ghost done: seq<bv8>)
    returns (ghost done': seq<bv8>)
    requires src.bitmap != dst.bitmap && upShift < 8 && lo <= hi
    requires sb == WithZeroTail(src.bitmap[..])
    requires RowsFit(lo, hi, rows, src.rowStride, |sb|)
    requires lines == ExtractLines(sb, src.rowStride, lo, hi, upShift, padding, usePadding, rows)
    requires 1 <= left && j + left == rows && Times(j, src.rowStride, js) && s == lo + js && e == hi + js
    requires limit == if upShift != 0 && lo < hi then |sb| else |sb| - 1
    requires RowsFit(s, e, left, src.rowStride, limit)
    requires upShift != 0 && lo < hi && !usePadding ==> 0 <= padding < upShift as int
    requires dst.bitmap[..] == done + Zeros(|Flatten(lines[j..])|) && dstLineStartIdx == |done|
    modifies dst.bitmap
    ensures RowsFit(s + src.rowStride, e + src.rowStride, left - 1, src.rowStride, limit)
    ensures Times(j + 1, src.rowStride, js + src.rowStride)
    ensures done + Flatten(lines[j..]) == done' + Flatten(lines[j + 1..])
    ensures |done'| == |done| + LineLength(hi - lo, upShift, usePadding)
    ensures dst.bitmap[..] == done' + Zeros(|Flatten(lines[j + 1..])|)
  {
    ExtractLinesAt(sb, src.rowStride, lo, hi, upShift, padding, usePadding, rows, j, js, s, e);
    ghost var line := lines[j];
    ExtractLineLen(sb, s, e, upShift, padding, usePadding);
    FlattenFrom(lines, j);
    ghost var rest' := Flatten(lines[j + 1..]);
    ConcatAssoc(done, line, rest');
    AppendRow(src, dst, upShift, padding, s, e, usePadding, dstLineStartIdx, done, |line + rest'|);
    done' := done + line;
  }

  /**
   * Extract's row loop: `rows` rows, the first of which reads source bytes
   * `lo..hi`, written one after another into the zeroed buffer of `dst`,
   * which they fill.
   */
  method ExtractRowsInto(src: Bitmap, dst: Bitmap, upShift: bv8, padding: int, usePadding: bool,
                         lo: int, hi: int, rows: int)
    requires src.bitmap != dst.bitmap && upShift < 8 && lo <= hi
    requires RowsFit(lo, hi, rows, src.rowStride,
                     if upShift != 0 && lo < hi then src.bitmap.Length + 1 else src.bitmap.Length)
    requires upShift != 0 && lo < hi && !usePadding ==> 0 <= padding < upShift as int
    requires RowsFit(lo, hi, rows, src.rowStride, src.bitmap.Length + 1)
    requires dst.rowStride == LineLength(hi - lo, upShift, usePadding)
    requires |ExtractRows(WithZeroTail(src.bitmap[..]), src.rowStride, lo, hi, upShift, padding, usePadding, rows)|
      == dst.bitmap.Length
    requires dst.bitmap[..] == Zeros(dst.bitmap.Length)
    modifies dst.bitmap
    ensures dst.bitmap[..]
      == ExtractRows(WithZeroTail(src.bitmap[..]), src.rowStride, lo, hi, upShift, padding, usePadding, rows)
  {
    ghost var raw := src.bitmap[..];
    ghost var sb := WithZeroTail(raw);
    ghost var limit := if upShift != 0 && lo < hi then |sb| else |sb| - 1;
    var ss := src.rowStride;
    ghost var lines := ExtractLines(sb, ss, lo, hi, upShift, padding, usePadding, rows);
    ghost var done: seq<bv8> := [];
    ghost var j, js := 0, 0;
    assert lines[0..] == lines;
    var srcLineStartIdx, srcLineEndIdx, dstLineStartIdx := lo, hi, 0;
    var left := rows;
    while 0 < left
      invariant src.bitmap[..] == raw
      invariant 0 < left ==> j + left == rows
      invariant left <= 0 ==> j == |lines|
      invariant Times(j, ss, js) && srcLineStartIdx == lo + js && srcLineEndIdx == hi + js
      invariant RowsFit(srcLineStartIdx, srcLineEndIdx, left, ss, limit)
      invariant Flatten(lines) == done + Flatten(lines[j..])
      invariant dstLineStartIdx == |done|
      invariant dst.bitmap[..] == done + Zeros(|Flatten(lines[j..])|)
    {
      var nextStart, nextEnd := srcLineStartIdx + ss, srcLineEndIdx + ss;
      done := ExtractNextRow(src, dst, upShift, padding, usePadding, lo, hi, rows, srcLineStartIdx,
                             srcLineEndIdx, dstLineStartIdx, left, sb, limit, lines, j, js, done);
      j, js := j + 1, js + ss;
      srcLineStartIdx, srcLineEndIdx := nextStart, nextEnd;
      dstLineStartIdx := dstLineStartIdx + dst.rowStride;
      left := left - 1;
    }
    assert lines[j..] == [];
  }


  /**
   * `extract(roi, src)`: a new `roi.width` x `roi.height` bitmap whose rows
   * are cut out of `src` row by row, starting at the byte of (roi.x, roi.y).
   * Java raises an exception when the destination cannot be allocated or a
   * row reaches outside the source buffer; the model reports which.
   */
  method Extract(roi: Rectangle, src: Bitmap) returns (r: Result<Bitmap>)
    requires src.Valid()
    ensures r.Ok? <==> ExtractSucceeds(roi, src.bitmap[..], src.rowStride)
    ensures r.Fail? ==> r.error == (if roi.height * RowStride(roi.width) < 0 then NegativeSize
                                    else IndexOutOfBounds)
    ensures r.Ok? ==> (fresh(r.value.bitmap) && r.value.Valid()
      && r.value.width == roi.width && r.value.height == roi.height
      && r.value.bitmap[..] == ExtractBytes(roi, src.bitmap[..], src.rowStride))
  {
    if roi.height * RowStride(roi.width) < 0 {
      return Fail(NegativeSize);
    }
    if !ExtractSucceeds(roi, src.bitmap[..], src.rowStride) {
      return Fail(IndexOutOfBounds);
    }
    var dst := new Bitmap(roi.width, roi.height);
    if roi.width <= 0 || roi.height <= 0 {
      // Nothing is read or written: the rows are empty, or there are none.
      return Ok(dst);
    }
    ghost var sb := src.bitmap[..];
    ghost var ss := src.rowStride;
    var upShift := Offset(roi.x);
    var padding := PadBits(dst.width);
    var srcLineStartIdx := src.GetByteIndex(roi.x, roi.y);
    var srcLineEndIdx := src.GetByteIndex(roi.x + roi.width - 1, roi.y);
    var usePadding := dst.rowStride == srcLineEndIdx + 1 - srcLineStartIdx;
    ExtractSpan(roi, ss);
    ExtractLineLength(roi, ss);
    if upShift != 0 && srcLineStartIdx < srcLineEndIdx && !usePadding {
      PadBelowShift(roi, ss);
    }
    RowsFitWiden(srcLineStartIdx, srcLineEndIdx, roi.height, ss, ReadLimit(roi, ss, |sb|), |sb| + 1);
    ExtractRowsLength(WithZeroTail(sb), ss, srcLineStartIdx, srcLineEndIdx, upShift, padding, usePadding,
                      roi.height);
    ExtractRowsInto(src, dst, upShift, padding, usePadding, srcLineStartIdx, srcLineEndIdx, roi.height);
    return Ok(dst);
  }
}
