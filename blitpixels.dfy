/**
 * What `blit` does to pixels when the source lies wholly inside the
 * destination.  Each pixel the source covers becomes the old pixel combined
 * with the source pixel by the operator's rule.  Every pixel outside the
 * bytes the rows touch is kept.  A region cut out by `extract` and blitted
 * back with REPLACE where it came from shows the pixels it was cut from.
 *
 * The routines combine whole bytes.  A pixel that shares a byte with the
 * placement but is not covered by it is therefore combined with a 0 bit
 * or with a pad bit of the source.  OR and XOR leave such a pixel as it
 * was when the bit is 0; AND, XNOR and REPLACE do not (`AndClearsNeighbours`).
 */
module BlitPixels {
  import opened BitUtil
  import opened Bits
  import opened PackedBitmap
  import opened Compositing
  import opened Blitting
  import Patterns

  /** A bitmap held as a value with the stride and buffer `new Bitmap(width, height)` gives it. */
  predicate WellFormed(im: Image)
  {
    0 <= im.width && 0 <= im.height && im.stride == RowStride(im.width) && |im.bytes| == im.height * im.stride
  }

  /** A `w` x `h` source placed at (x, y) lies wholly inside a `dw` x `dh` destination. */
  predicate Placed(w: int, h: int, dw: int, dh: int, x: int, y: int)
  {
    0 <= x && x + w <= dw && 0 <= y && y + h <= dh
  }

  /** Inside the destination nothing is clipped, so the row skipped for y < 0 plays no part. */
  lemma PlanAsWrittenInside(w: int, h: int, ss: int, dw: int, dh: int, ds: int, x: int, y: int)
    requires Placed(w, h, dw, dh, x, y)
    ensures PlanAsWritten(w, h, ss, dw, dh, ds, x, y) == Plan(w, h, ss, dw, dh, ds, x, y)
  {
  }

  /**
   * The mode `blit` picks for an unclipped source `w` pixels wide: aligned
   * at a byte boundary, shifted within `ss` bytes, or shifted into one more.
   */
  predicate InsideMode(m: LineMode, w: int, ss: int, x: int)
  {
    && m.shiftVal1 == Offset(x)
    && (m.strategy == Unshifted <==> x % 8 == 0)
    && (m.strategy == SpecialShifted <==> x % 8 != 0 && w <= 8 * (ss - 1) + (8 - x % 8))
    && (m.strategy != Unshifted ==> m.toShift == 8 - x % 8 - w % 8)
    && (m.strategy == Shifted ==> m.padding == w % 8)
  }

  lemma ModeInside(w: int, h: int, ss: int, dw: int, dh: int, ds: int, x: int, y: int)
    requires Placed(w, h, dw, dh, x, y)
    ensures var p := PlanAsWritten(w, h, ss, dw, dh, ds, x, y);
      p.startLine == 0 && p.lastLine == h && p.srcStartIdx == 0 && p.srcEndIdx == ss - 1
      && p.dstStartIdx == ByteIndex(ds, x, y) && InsideMode(ModeOf(p), w, ss, x) && ModeOk(ModeOf(p))
  {
    PlanAsWrittenInside(w, h, ss, dw, dh, ds, x, y);
    PlanInside(w, h, ss, dw, dh, ds, x, y);
    ModeOfPlan(w, h, ss, dw, dh, ds, x, y);
    OffsetZero(x);
  }

  // ---------------------------------------------------------------------------
  // Offsets of pixels within a byte

  /** The offset of a column whose remainder is known. */
  lemma OffsetIs(x: int, n: int)
    requires x % 8 == n
    ensures Offset(x) == n as bv8
  {
  }

  /**
   * Column `x + i` lies `k` bytes after the byte of column `x`, at offset
   * `t`.  Source pixel `i` is then in byte `k - 1` when `t` is left of x's
   * offset `s`, and in byte `k` otherwise.
   */
  lemma Column(x: int, i: int)
    requires 0 <= i
    ensures var s, t, k := x % 8, (x + i) % 8, (x % 8 + i) / 8;
      s + i == 8 * k + t
      && (t < s ==> 1 <= k && i / 8 == k - 1 && i % 8 == t + 8 - s)
      && (s <= t ==> i / 8 == k && i % 8 == t - s)
  {
    var s, q, r := x % 8, i / 8, i % 8;
    var c := x / 8 + q;
    assert x + i == 8 * c + (s + r);
    if s + r < 8 {
      assert (s + i) / 8 == q && (x + i) % 8 == s + r;
    } else {
      assert x + i == 8 * (c + 1) + (s + r - 8);
      assert (s + i) / 8 == q + 1 && (x + i) % 8 == s + r - 8;
    }
  }

  lemma CarryOffset(t: int, s: int)
    requires 0 <= t < s < 8
    ensures (t as bv8) + (8 - s as bv8) < 8 && (t as bv8) + (8 - s as bv8) == (t + 8 - s) as bv8
  {
  }

  lemma NoCarryOffset(t: int, s: int)
    requires 0 < s <= t < 8
    ensures 8 <= (t as bv8) + (8 - s as bv8) && (t as bv8) + (8 - s as bv8) - 8 == (t - s) as bv8
  {
  }

  /**
   * Pixel `t` of the byte joining `a` and `b` shifted right by `s` is pixel
   * `t + 8 - s` of `a` when `t < s`, and pixel `t - s` of `b` otherwise.
   */
  lemma MergeShiftedBit(a: bv8, b: bv8, s: int, t: int)
    requires 0 < s < 8 && 0 <= t < 8
    ensures BitAt(MergeBytes(a, b, 8 - s as bv8), t as bv8)
      == if t < s then BitAt(a, (t + 8 - s) as bv8) else BitAt(b, (t - s) as bv8)
  {
    MergeBit(a, b, 8 - s as bv8, t as bv8);
    if t < s {
      CarryOffset(t, s);
    } else {
      NoCarryOffset(t, s);
    }
  }

  /** Pixel `t < s` of a byte shifted left by `8 - s` is pixel `t + 8 - s` of the byte. */
  lemma ShlShiftedBit(a: bv8, s: int, t: int)
    requires 0 <= t < s < 8
    ensures BitAt(a << (8 - s as bv8), t as bv8) == BitAt(a, (t + 8 - s) as bv8)
  {
    ShlBit(a, 8 - s as bv8, t as bv8);
    CarryOffset(t, s);
  }

  /** Unpadding keeps every pixel left of the pad bits. */
  lemma UnpadKeeps(padding: int, v: bv8, t: int)
    requires 0 <= t && 0 <= padding && t + padding < 8
    ensures BitAt(Unpad(padding, v), t as bv8) == BitAt(v, t as bv8)
  {
    UnpadPixels(padding, v, t as bv8);
  }

  /**
   * Pixel `x + i` of a destination byte `k` that joins source bytes `k - 1`
   * and `k` shifted right by `x & 7` is source pixel `i`.
   */
  lemma JoinedPixel(src: seq<bv8>, a: int, k: int, x: int, i: int)
    requires x % 8 != 0 && 0 <= i && k == (x % 8 + i) / 8 && 0 <= a && a + k < |src|
    ensures 0 <= a + i / 8 < |src|
    ensures BitAt(MergeBytes(Prev(src, a, k), src[a + k], 8 - Offset(x)), Offset(x + i))
      == BitAt(src[a + i / 8], Offset(i))
  {
    var s, t := x % 8, (x + i) % 8;
    Column(x, i);
    OffsetIs(x, s);
    OffsetIs(x + i, t);
    MergeShiftedBit(Prev(src, a, k), src[a + k], s, t);
    if t < s {
      OffsetIs(i, t + 8 - s);
    } else {
      OffsetIs(i, t - s);
    }
  }

  /** A special-shifted source ends part-way into a byte, before the pixels the shift moves on. */
  lemma SpecialShape(w: int, ss: int, s: int)
    requires 1 <= w && ss == RowStride(w) && 0 < s < 8 && w <= 8 * (ss - 1) + (8 - s)
    ensures w % 8 != 0 && w == 8 * (ss - 1) + w % 8 && w % 8 + s <= 8
  {
  }

  /** A shifted source reaches one byte further once shifted. */
  lemma ShiftedShape(w: int, ss: int, s: int)
    requires 1 <= w && ss == RowStride(w) && 0 < s < 8 && 8 * (ss - 1) + (8 - s) < w
    ensures 8 * ss < s + w && w <= 8 * ss && (w % 8 != 0 ==> w == 8 * (ss - 1) + w % 8)
  {
  }

  /** An unshifted row: the destination byte of pixel `x + i` is the source byte of pixel `i`. */
  lemma UnshiftedRowPixel(src: seq<bv8>, a: int, ss: int, w: int, x: int, m: LineMode, i: int)
    requires 1 <= w && ss == RowStride(w) && 0 <= a && a + ss <= |src| && 0 <= i < w
    requires InsideMode(m, w, ss, x) && m.strategy == Unshifted
    ensures var k := (x % 8 + i) / 8;
      |LineBytes(src, a, a + ss - 1, m)| == ss && 0 <= k < ss && a + i / 8 < |src|
      && BitAt(LineBytes(src, a, a + ss - 1, m)[k], Offset(x + i)) == BitAt(src[a + i / 8], Offset(i))
  {
    Column(x, i);
    OffsetIs(x + i, i % 8);
  }

  /** A special-shifted row: the last byte keeps the source pixels and clears what follows them. */
  lemma SpecialRowPixel(src: seq<bv8>, a: int, ss: int, w: int, x: int, m: LineMode, i: int)
    requires 1 <= w && ss == RowStride(w) && 0 <= a && a + ss <= |src| && 0 <= i < w
    requires InsideMode(m, w, ss, x) && m.strategy == SpecialShifted
    ensures var k := (x % 8 + i) / 8;
      |LineBytes(src, a, a + ss - 1, m)| == ss && 0 <= k < ss && a + i / 8 < |src|
      && BitAt(LineBytes(src, a, a + ss - 1, m)[k], Offset(x + i)) == BitAt(src[a + i / 8], Offset(i))
  {
    var k := (x % 8 + i) / 8;
    SpecialShape(w, ss, x % 8);
    Column(x, i);
    assert LineBytes(src, a, a + ss - 1, m)[k] == SpecialLineByte(src, a, a + ss - 1, m.shiftVal1, m.toShift, k);
    SpecialBytePixel(src, a, a + ss - 1, x, i, m.toShift);
  }

  /**
   * Byte `k` of a special-shifted row holds pixel `x + i` as source pixel
   * `i`; in the last byte the unpadding clears only pixels right of it.
   */
  lemma SpecialBytePixel(src: seq<bv8>, a: int, hi: int, x: int, i: int, toShift: int)
    requires x % 8 != 0 && 0 <= i && 0 <= a && a + (x % 8 + i) / 8 <= hi < |src|
    requires (x % 8 + i) / 8 == hi - a ==> 0 <= toShift && (x + i) % 8 + toShift < 8
    ensures 0 <= a + i / 8 < |src|
    ensures BitAt(SpecialLineByte(src, a, hi, Offset(x), toShift, (x % 8 + i) / 8), Offset(x + i))
      == BitAt(src[a + i / 8], Offset(i))
  {
    var t, k := (x + i) % 8, (x % 8 + i) / 8;
    JoinedPixel(src, a, k, x, i);
    if k == hi - a {
      OffsetIs(x + i, t);
      UnpadKeeps(toShift, MergeBytes(Prev(src, a, k), src[a + k], 8 - Offset(x)), t);
    }
  }

  /** A shifted row: the extra byte holds the source pixels the last byte could not, the rest cleared. */
  lemma ShiftedRowPixel(src: seq<bv8>, a: int, ss: int, w: int, x: int, m: LineMode, i: int)
    requires 1 <= w && ss == RowStride(w) && 0 <= a && a + ss <= |src| && 0 <= i < w
    requires InsideMode(m, w, ss, x) && m.strategy == Shifted
    ensures var k := (x % 8 + i) / 8;
      |LineBytes(src, a, a + ss - 1, m)| == ss + 1 && 0 <= k <= ss && a + i / 8 < |src|
      && BitAt(LineBytes(src, a, a + ss - 1, m)[k], Offset(x + i)) == BitAt(src[a + i / 8], Offset(i))
  {
    var s, t, k := x % 8, (x + i) % 8, (x % 8 + i) / 8;
    ShiftedShape(w, ss, s);
    Column(x, i);
    assert LineBytes(src, a, a + ss - 1, m)[k]
      == ShiftedLineByte(src, a, a + ss - 1, m.shiftVal1, m.toShift, m.padding, k);
    if k < ss {
      JoinedPixel(src, a, k, x, i);
    } else {
      TailPixel(src[a + ss - 1], x, i, m.toShift, m.padding);
    }
  }

  /**
   * The tail byte of a shifted row: pixel `x + i`, left of x's offset `s`,
   * is pixel `i`'s bit of the last source byte, whatever the unpadding.
   */
  lemma TailPixel(last: bv8, x: int, i: int, toShift: int, padding: int)
    requires 0 <= i && x % 8 != 0 && (x + i) % 8 < x % 8 && i % 8 == (x + i) % 8 + 8 - x % 8
    requires toShift == 8 - x % 8 - padding && 0 <= padding < 8
    requires padding != 0 ==> (x + i) % 8 + 8 + toShift < 8
    ensures BitAt(TailByte(last, Offset(x), toShift, padding), Offset(x + i)) == BitAt(last, Offset(i))
  {
    var s, t := x % 8, (x + i) % 8;
    OffsetIs(x, s);
    OffsetIs(x + i, t);
    OffsetIs(i, t + 8 - s);
    ShlShiftedBit(last, s, t);
    if padding != 0 {
      UnpadKeeps(8 + toShift, last << (8 - Offset(x)), t);
    }
  }

  /**
   * Pixel `x + i` of the row a blit makes from source bytes `a..a + ss - 1`
   * is pixel `i` of those bytes, in every mode.
   */
  lemma RowPixel(src: seq<bv8>, a: int, ss: int, w: int, x: int, m: LineMode, i: int)
    requires 1 <= w && ss == RowStride(w) && 0 <= a && a + ss <= |src| && 0 <= i < w
    requires InsideMode(m, w, ss, x)
    ensures var k := (x % 8 + i) / 8;
      ModeOk(m) && |LineBytes(src, a, a + ss - 1, m)| == Blitting.LineLength(a, a + ss - 1, m.strategy)
      && 0 <= k < Blitting.LineLength(a, a + ss - 1, m.strategy) && a + i / 8 < |src|
      && BitAt(LineBytes(src, a, a + ss - 1, m)[k], Offset(x + i)) == BitAt(src[a + i / 8], Offset(i))
  {
    OffsetZero(x);
    match m.strategy
    case Unshifted => UnshiftedRowPixel(src, a, ss, w, x, m, i);
    case SpecialShifted => SpecialRowPixel(src, a, ss, w, x, m, i);
    case Shifted => ShiftedRowPixel(src, a, ss, w, x, m, i);
  }

  // ---------------------------------------------------------------------------
  // The rows of an unclipped blit lie in the buffers

  /**
   * A row placed at column `x` ends in the destination row: its last byte
   * is at most the byte of the last pixel the source covers.
   */
  lemma InsideSpan(w: int, ss: int, x: int, dw: int, ds: int, m: LineMode)
    requires 1 <= w && ss == RowStride(w) && ds == RowStride(dw) && 0 <= x && x + w <= dw
    requires InsideMode(m, w, ss, x)
    ensures x / 8 + Blitting.LineLength(0, ss - 1, m.strategy) - 1 <= (x + w - 1) / 8 < ds
  {
    var q, s := x / 8, x % 8;
    assert x == 8 * q + s && x + w - 1 == 8 * q + (s + w - 1);
    assert (x + w - 1) / 8 == q + (s + w - 1) / 8;
    DivMonotone(x + w - 1, dw - 1);
    if m.strategy == Shifted {
      assert 8 * ss <= s + w - 1;
    }
  }

  /** Rows `r..r + rows - 1` of an `h`-row source fit, placed from destination row `dRow` at byte `off`. */
  lemma {:induction false} GridLinesFit(h: int, ss: int, dh: int, ds: int, r: int, dRow: int, off: int,
                                        rows: int, extra: int)
    requires 1 <= ss && 0 <= r && 0 <= dRow && 0 <= off && 0 <= extra && off + ss + extra <= ds
    requires 0 <= rows && r + rows <= h && dRow + rows <= dh
    ensures LinesFit(h * ss, dh * ds, ss, ds, r * ss, r * ss + ss - 1, dRow * ds + off, rows, extra)
    decreases rows
  {
    if rows > 0 {
      MulMonotone(r + 1, h, ss);
      MulMonotone(dRow + 1, dh, ds);
      assert (r + 1) * ss == r * ss + ss && (dRow + 1) * ds == dRow * ds + ds;
      GridLinesFit(h, ss, dh, ds, r + 1, dRow + 1, off, rows - 1, extra);
    }
  }

  /** An unclipped blit of a non-empty source touches only bytes inside both buffers. */
  lemma InsideFits(src: Image, dw: int, dh: int, x: int, y: int, d: seq<bv8>)
    requires WellFormed(src) && 1 <= src.width && |d| == dh * RowStride(dw)
    requires Placed(src.width, src.height, dw, dh, x, y)
    ensures var p := PlanAsWritten(src.width, src.height, src.stride, dw, dh, RowStride(dw), x, y);
      PlanFits(p, |src.bytes|, |d|, src.stride, RowStride(dw))
      && Blitting.LineLength(0, src.stride - 1, p.strategy) <= RowStride(dw)
  {
    var w, h, ss, ds := src.width, src.height, src.stride, RowStride(dw);
    var p := PlanAsWritten(w, h, ss, dw, dh, ds, x, y);
    ModeInside(w, h, ss, dw, dh, ds, x, y);
    InsideSpan(w, ss, x, dw, ds, ModeOf(p));
    GridLinesFit(h, ss, dh, ds, 0, y, x / 8, h, Extra(ModeOf(p)));
  }

  // ---------------------------------------------------------------------------
  // Pixels after a blit

  /**
   * An unclipped blit of a non-empty source succeeds and combines every
   * source row, from the byte of (x, y) on, in the mode `InsideMode` gives.
   */
  lemma InsideBlit(d: seq<bv8>, dw: int, dh: int, src: Image, x: int, y: int, op: CombinationOperator)
    requires WellFormed(src) && 1 <= src.width && |d| == dh * RowStride(dw)
    requires Placed(src.width, src.height, dw, dh, x, y)
    ensures var m := ModeOf(PlanAsWritten(src.width, src.height, src.stride, dw, dh, RowStride(dw), x, y));
      var ds := RowStride(dw);
      InsideMode(m, src.width, src.stride, x) && ModeOk(m)
      && LinesFit(|src.bytes|, |d|, src.stride, ds, 0, src.stride - 1, ByteIndex(ds, x, y), src.height, Extra(m))
      && Blitting.LineLength(0, src.stride - 1, m.strategy) <= ds
      && BlitImage(d, dw, dh, ds, src, x, y, op)
         == Some(BlitLines(d, src.bytes, src.stride, ds, 0, src.stride - 1, ByteIndex(ds, x, y), src.height, m, op))
  {
    ModeInside(src.width, src.height, src.stride, dw, dh, RowStride(dw), x, y);
    InsideFits(src, dw, dh, x, y, d);
  }

  /**
   * `blit(src, dst, x, y, op)` with the source inside the destination
   * succeeds, and pixel (x + i, y + j) becomes the old pixel combined with
   * source pixel (i, j) by the operator's pixel rule, for every pixel of
   * the source.
   */
  lemma BlitPixel(d: seq<bv8>, dw: int, dh: int, src: Image, x: int, y: int, op: CombinationOperator,
                  i: int, j: int)
    requires WellFormed(src) && |d| == dh * RowStride(dw) && Placed(src.width, src.height, dw, dh, x, y)
    requires 0 <= i < src.width && 0 <= j < src.height
    ensures BlitImage(d, dw, dh, RowStride(dw), src, x, y, op).Some?
    ensures var d' := BlitImage(d, dw, dh, RowStride(dw), src, x, y, op).value;
      |d'| == |d|
      && GridPixel(d', RowStride(dw), dh, x + i, y + j)
         == CombinePixel(GridPixel(d, RowStride(dw), dh, x + i, y + j),
                         GridPixel(src.bytes, src.stride, src.height, i, j), op)
  {
    var w, h, ss, ds := src.width, src.height, src.stride, RowStride(dw);
    var m := ModeOf(PlanAsWritten(w, h, ss, dw, dh, ds, x, y));
    InsideBlit(d, dw, dh, src, x, y, op);
    var v := LinesPixel(d, src.bytes, w, h, ss, dh, ds, x, y, m, op, i, j);
    CombinedPixel(d, BlitLines(d, src.bytes, ss, ds, 0, ss - 1, ByteIndex(ds, x, y), h, m, op), ds, dh, x + i, y + j,
                  ByteIndex(ds, x + i, y + j), v, op, GridPixel(src.bytes, ss, h, i, j));
  }

  /**
   * `BlitPixel` for the rows themselves: after the rows of an `h`-row
   * source are combined from the byte of (x, y) on, the byte of pixel
   * (x + i, y + j) is its old value combined with a row byte `v` whose
   * pixel at that column is source pixel (i, j).
   */
  lemma LinesPixel(d: seq<bv8>, src: seq<bv8>, w: int, h: int, ss: int, dh: int, ds: int, x: int, y: int,
                   m: LineMode, op: CombinationOperator, i: int, j: int)
    returns (v: bv8)
    requires 1 <= w && ss == RowStride(w) && |src| == h * ss && |d| == dh * ds
    requires 0 <= x && 0 <= y && y + h <= dh && x + w <= 8 * ds
    requires InsideMode(m, w, ss, x) && ModeOk(m)
    requires LinesFit(|src|, |d|, ss, ds, 0, ss - 1, ByteIndex(ds, x, y), h, Extra(m))
    requires Blitting.LineLength(0, ss - 1, m.strategy) <= ds
    requires 0 <= i < w && 0 <= j < h
    ensures var idx := ByteIndex(ds, x + i, y + j);
      0 <= idx < |d|
      && BlitLines(d, src, ss, ds, 0, ss - 1, ByteIndex(ds, x, y), h, m, op)[idx] == CombineBytes(d[idx], v, op)
    ensures BitAt(v, Offset(x + i)) == GridPixel(src, ss, h, i, j)
  {
    var js, jd := j * ss, j * ds;
    TimesMul(j, ss);
    TimesMul(j, ds);
    RowInRaster(j, h, ss);
    ColumnInLine(w, ss, x, m, i);
    RowSourceByte(x, y, ds, i, j, ByteIndex(ds, x, y), jd);
    v := LinesByte(d, src, w, ss, ds, x, m, op, 0, ss - 1, h, ByteIndex(ds, x, y), j, js, jd, i,
                   ByteIndex(ds, x + i, y + j));
    GridPixelAt(src, ss, h, i, j, js, i / 8);
  }

  /**
   * Row `j` of the rows of a source `w` pixels wide combined from byte
   * `dLo` on (`js` and `jd` are `j` source and `j` destination strides):
   * the byte `idx` of column x + i is the old byte combined with a row byte
   * `v` whose pixel at that column is pixel `i` of the row.
   */
  lemma LinesByte(d: seq<bv8>, src: seq<bv8>, w: int, ss: int, ds: int, x: int, m: LineMode,
                  op: CombinationOperator, lo: int, hi: int, rows: int, dLo: int, j: int, js: int, jd: int,
                  i: int, idx: int)
    returns (v: bv8)
    requires 1 <= w && ss == RowStride(w) && 0 <= i < w && InsideMode(m, w, ss, x)
    requires lo == 0 && hi == ss - 1
    requires ModeOk(m) && LinesFit(|src|, |d|, ss, ds, lo, hi, dLo, rows, Extra(m))
    requires Blitting.LineLength(lo, hi, m.strategy) <= ds
    requires 0 <= j < rows && Times(j, ss, js) && Times(j, ds, jd) && 0 <= js && js + ss <= |src|
    requires 0 <= (x % 8 + i) / 8 < Blitting.LineLength(lo, hi, m.strategy) && idx == dLo + jd + (x % 8 + i) / 8
    ensures 0 <= idx < |d| && BlitLines(d, src, ss, ds, lo, hi, dLo, rows, m, op)[idx] == CombineBytes(d[idx], v, op)
    ensures js + i / 8 < |src| && BitAt(v, Offset(x + i)) == BitAt(src[js + i / 8], Offset(i))
  {
    v := RowLinesByte(d, src, ss, ds, m, op, lo, hi, rows, dLo, j, js, jd, (x % 8 + i) / 8, idx);
    RowBytePixel(src, js, ss, w, x, m, i, v);
  }

  /** `BlitLinesAt` for a row window starting at byte 0, with the row byte named `v`. */
  lemma RowLinesByte(d: seq<bv8>, src: seq<bv8>, ss: int, ds: int, m: LineMode, op: CombinationOperator,
                     lo: int, hi: int, rows: int, dLo: int, j: int, js: int, jd: int, k: int, idx: int)
    returns (v: bv8)
    requires lo == 0 && hi == ss - 1
    requires ModeOk(m) && LinesFit(|src|, |d|, ss, ds, lo, hi, dLo, rows, Extra(m))
    requires Blitting.LineLength(lo, hi, m.strategy) <= ds
    requires 0 <= j < rows && Times(j, ss, js) && Times(j, ds, jd)
    requires 0 <= k < Blitting.LineLength(lo, hi, m.strategy) && idx == dLo + jd + k
    ensures 0 <= idx < |d| && BlitLines(d, src, ss, ds, lo, hi, dLo, rows, m, op)[idx] == CombineBytes(d[idx], v, op)
    ensures 0 <= k < |LineBytes(src, js, js + ss - 1, m)| && v == LineBytes(src, js, js + ss - 1, m)[k]
  {
    BlitLinesAt(d, src, ss, ds, lo, hi, dLo, rows, m, op, j, k, jd, js, js, js + ss - 1, idx);
    v := LineBytes(src, js, js + ss - 1, m)[k];
  }

  /** The bytes of row `j` of an `h`-row raster of stride `ss` lie in the raster. */
  lemma RowInRaster(j: int, h: int, ss: int)
    requires 0 <= j < h && 0 <= ss
    ensures 0 <= j * ss && j * ss + ss <= h * ss
  {
    MulMonotone(j + 1, h, ss);
    MulSucc(j, ss);
  }

  /** Column x + i of a row placed at column `x` lies in the row the routine makes. */
  lemma ColumnInLine(w: int, ss: int, x: int, m: LineMode, i: int)
    requires 1 <= w && ss == RowStride(w) && 0 <= i < w && InsideMode(m, w, ss, x)
    ensures 0 <= (x % 8 + i) / 8 < Blitting.LineLength(0, ss - 1, m.strategy)
  {
    Column(x, i);
    match m.strategy
    case Unshifted =>
    case SpecialShifted => SpecialShape(w, ss, x % 8);
    case Shifted => ShiftedShape(w, ss, x % 8);
  }

  /** `RowPixel` for a byte named by its value. */
  lemma RowBytePixel(src: seq<bv8>, a: int, ss: int, w: int, x: int, m: LineMode, i: int, v: bv8)
    requires 1 <= w && ss == RowStride(w) && 0 <= a && a + ss <= |src| && 0 <= i < w
    requires InsideMode(m, w, ss, x)
    requires 0 <= (x % 8 + i) / 8 < |LineBytes(src, a, a + ss - 1, m)|
    requires v == LineBytes(src, a, a + ss - 1, m)[(x % 8 + i) / 8]
    ensures a + i / 8 < |src| && BitAt(v, Offset(x + i)) == BitAt(src[a + i / 8], Offset(i))
  {
    RowPixel(src, a, ss, w, x, m, i);
  }

  /** A pixel of a byte combined with `v` is the old pixel combined with the same pixel of `v`. */
  lemma CombinedPixel(d: seq<bv8>, d': seq<bv8>, ds: int, dh: int, px: int, py: int, idx: int, v: bv8,
                      op: CombinationOperator, pixel: bv8)
    requires |d| == dh * ds && |d'| == |d| && 0 <= px < 8 * ds && 0 <= py < dh
    requires idx == ByteIndex(ds, px, py) && 0 <= idx < |d| && d'[idx] == CombineBytes(d[idx], v, op)
    requires BitAt(v, Offset(px)) == pixel
    ensures GridPixel(d', ds, dh, px, py) == CombinePixel(GridPixel(d, ds, dh, px, py), pixel, op)
  {
    CombineBytesPixels(d[idx], v, op, Offset(px));
  }

  /** A byte in row `b` at byte `a / 8` is in no window of rows `y0..` that misses it. */
  lemma {:induction false} GridOutside(ds: int, a: int, b: int, y0: int, q: int, len: int, rows: int)
    requires 0 <= a < 8 * ds && 0 <= q && 0 <= len && q + len <= ds && 0 <= rows
    requires b < y0 || y0 + rows <= b || a / 8 < q || q + len <= a / 8
    ensures Outside(b * ds + a / 8, y0 * ds + q, ds, rows, len)
    decreases rows
  {
    if rows > 0 {
      RowOutside(ds, a, b, y0, q, len);
      GridOutside(ds, a, b, y0 + 1, q, len, rows - 1);
    }
  }

  /** One window: a byte of another row, or of this row outside `q..q + len - 1`, is not in it. */
  lemma RowOutside(ds: int, a: int, b: int, y0: int, q: int, len: int)
    requires 0 <= a < 8 * ds && 0 <= q && 0 <= len && q + len <= ds
    requires b != y0 || a / 8 < q || q + len <= a / 8
    ensures b * ds + a / 8 < y0 * ds + q || y0 * ds + q + len <= b * ds + a / 8
    ensures (y0 + 1) * ds + q == y0 * ds + q + ds
  {
    if b < y0 {
      MulMonotone(b + 1, y0, ds);
    } else if b > y0 {
      MulMonotone(y0 + 1, b, ds);
    }
  }

  /**
   * With the source inside the destination, every pixel in a row the
   * source does not cover, or in a byte of its row that holds none of the
   * covered pixels, is kept.
   */
  lemma BlitKeepsOutside(d: seq<bv8>, dw: int, dh: int, src: Image, x: int, y: int, op: CombinationOperator,
                         a: int, b: int)
    requires WellFormed(src) && |d| == dh * RowStride(dw) && Placed(src.width, src.height, dw, dh, x, y)
    requires 0 <= a < dw && 0 <= b < dh
    requires b < y || y + src.height <= b || a / 8 < x / 8 || (x + src.width - 1) / 8 < a / 8
    ensures BlitImage(d, dw, dh, RowStride(dw), src, x, y, op).Some?
    ensures var d' := BlitImage(d, dw, dh, RowStride(dw), src, x, y, op).value;
      |d'| == |d| && GridPixel(d', RowStride(dw), dh, a, b) == GridPixel(d, RowStride(dw), dh, a, b)
  {
    var ds := RowStride(dw);
    var p := PlanAsWritten(src.width, src.height, src.stride, dw, dh, ds, x, y);
    WindowsMiss(d, dw, dh, src, x, y, a, b);
    BlitLinesFrame(d, src.bytes, src.stride, ds, 0, src.stride - 1, p.dstStartIdx, src.height, ModeOf(p), op,
                   ByteIndex(ds, a, b));
  }

  /** The plan of `BlitKeepsOutside` fits, and none of its row windows holds the byte of (a, b). */
  lemma WindowsMiss(d: seq<bv8>, dw: int, dh: int, src: Image, x: int, y: int, a: int, b: int)
    requires WellFormed(src) && |d| == dh * RowStride(dw) && Placed(src.width, src.height, dw, dh, x, y)
    requires 0 <= a < dw && 0 <= b < dh
    requires b < y || y + src.height <= b || a / 8 < x / 8 || (x + src.width - 1) / 8 < a / 8
    ensures var p := PlanAsWritten(src.width, src.height, src.stride, dw, dh, RowStride(dw), x, y);
      PlanFits(p, |src.bytes|, |d|, src.stride, RowStride(dw)) && ModeOk(ModeOf(p))
      && p.srcStartIdx == 0 && p.srcEndIdx == src.stride - 1 && p.lastLine - p.startLine == src.height
      && 0 <= ByteIndex(RowStride(dw), a, b) < |d|
      && Outside(ByteIndex(RowStride(dw), a, b), p.dstStartIdx, RowStride(dw), src.height,
                 Blitting.LineLength(0, src.stride - 1, ModeOf(p).strategy))
  {
    var w, h, ss, ds := src.width, src.height, src.stride, RowStride(dw);
    var p := PlanAsWritten(w, h, ss, dw, dh, ds, x, y);
    var m := ModeOf(p);
    ModeInside(w, h, ss, dw, dh, ds, x, y);
    ByteIndexInGrid(ds, dh, a, b);
    var len := Blitting.LineLength(0, ss - 1, m.strategy);
    if w == 0 {
      assert PlanFits(p, |src.bytes|, |d|, ss, ds) && len == 0;
      DivMonotone(x, dw + 7);
    } else {
      InsideFits(src, dw, dh, x, y, d);
      InsideSpan(w, ss, x, dw, ds, m);
    }
    GridOutside(ds, a, b, y, x / 8, len, h);
  }

  // ---------------------------------------------------------------------------
  // extract, then blit back

  /** A region inside a bitmap can be extracted: every row it reads lies in the buffer. */
  lemma InsideExtracts(b: Image, roi: Rectangle)
    requires WellFormed(b) && 1 <= roi.width && 1 <= roi.height
    requires Placed(roi.width, roi.height, b.width, b.height, roi.x, roi.y)
    ensures ExtractSucceeds(roi, b.bytes, b.stride)
  {
    var ss := b.stride;
    var s, e := ExtractStart(roi, ss), ExtractEnd(roi, ss);
    DivMonotone(roi.x + roi.width - 1, b.width - 1);
    RegionRowsBelow(ss, b.height, roi.y, roi.height, (roi.x + roi.width - 1) / 8, RowStride(roi.width));
    Patterns.RowsFitBelow(s, e, roi.height, ss, |b.bytes|);
    RowsFitWiden(s, e, roi.height, ss, |b.bytes|, ReadLimit(roi, ss, |b.bytes|));
  }

  /**
   * A region of `rh` rows from row `ry` of an `bh`-row raster: its last
   * row's byte `c` is less than a stride past the raster's end once moved
   * down by `rh` rows, and its destination size is not negative.
   */
  lemma RegionRowsBelow(ss: int, bh: int, ry: int, rh: int, c: int, dss: int)
    requires 0 <= c < ss && 0 <= ry && 0 <= rh && ry + rh <= bh && 0 <= dss
    ensures ry * ss + c + rh * ss < bh * ss + ss && 0 <= rh * dss
  {
    MulMonotone(ry + rh, bh, ss);
    assert ry * ss + rh * ss == (ry + rh) * ss;
    MulMonotone(0, rh, dss);
  }

  /**
   * `extract(roi, b)` followed by a REPLACE blit of the result at
   * (roi.x, roi.y), on any destination the region fits in, shows b's pixels
   * throughout the region.
   */
  lemma ExtractThenReplace(b: Image, roi: Rectangle, d: seq<bv8>, dw: int, dh: int, i: int, j: int)
    requires WellFormed(b) && 1 <= roi.width && 1 <= roi.height
    requires Placed(roi.width, roi.height, b.width, b.height, roi.x, roi.y)
    requires |d| == dh * RowStride(dw) && Placed(roi.width, roi.height, dw, dh, roi.x, roi.y)
    requires 0 <= i < roi.width && 0 <= j < roi.height
    ensures ExtractSucceeds(roi, b.bytes, b.stride)
    ensures var e := Image(roi.width, roi.height, RowStride(roi.width), ExtractBytes(roi, b.bytes, b.stride));
      var r := BlitImage(d, dw, dh, RowStride(dw), e, roi.x, roi.y, REPLACE);
      r.Some? && |r.value| == |d|
      && GridPixel(r.value, RowStride(dw), dh, roi.x + i, roi.y + j)
         == GridPixel(b.bytes, b.stride, b.height, roi.x + i, roi.y + j)
  {
    var e := ExtractedImage(b, roi, i, j);
    BlitPixel(d, dw, dh, e, roi.x, roi.y, REPLACE, i, j);
  }

  /** The bitmap `extract` builds from a region inside `b` is well formed and holds b's pixels. */
  lemma ExtractedImage(b: Image, roi: Rectangle, i: int, j: int) returns (e: Image)
    requires WellFormed(b) && 1 <= roi.width && 1 <= roi.height
    requires Placed(roi.width, roi.height, b.width, b.height, roi.x, roi.y)
    requires 0 <= i < roi.width && 0 <= j < roi.height
    ensures ExtractSucceeds(roi, b.bytes, b.stride)
    ensures e == Image(roi.width, roi.height, RowStride(roi.width), ExtractBytes(roi, b.bytes, b.stride))
    ensures WellFormed(e)
    ensures GridPixel(e.bytes, e.stride, e.height, i, j) == GridPixel(b.bytes, b.stride, b.height, roi.x + i, roi.y + j)
  {
    InsideExtracts(b, roi);
    e := Image(roi.width, roi.height, RowStride(roi.width), ExtractBytes(roi, b.bytes, b.stride));
    ExtractPixels(roi, b.bytes, b.stride, i, j);
    ByteIndexInGrid(b.stride, b.height, roi.x + i, roi.y + j);
  }

  /**
   * The whole-byte combination reaches uncovered pixels: a one-pixel source
   * of value 1 AND-ed at (1, 0) into an all-ones 8 x 1 destination clears
   * pixel 0, which it does not cover, and keeps pixel 1, which it does.
   */
  lemma AndClearsNeighbours()
    ensures var r := BlitImage([0xff], 8, 1, 1, Image(1, 1, 1, [0x80]), 1, 0, AND);
      r == Some([0x40]) && GridPixel(r.value, 1, 1, 0, 0) == 0 && GridPixel(r.value, 1, 1, 1, 0) == 1
  {
    var p := PlanAsWritten(1, 1, 1, 8, 1, 1, 1, 0);
    assert p.strategy == SpecialShifted && p.shiftVal1 == 1 && p.toShift == 6;
    assert p.srcStartIdx == 0 && p.srcEndIdx == 0 && p.dstStartIdx == 0 && p.lastLine - p.startLine == 1;
    var m := ModeOf(p);
    assert SpecialLineByte([0x80], 0, 0, 1, 6, 0) == 0x40;
    assert LineBytes([0x80], 0, 0, m) == [0x40];
    assert CombineInto([0xff], 0, [0x40], AND) == [0x40];
    assert BlitLines([0xff], [0x80], 1, 1, 0, 0, 0, 1, m, AND) == [0x40];
  }
}
