/**
 * `Bitmaps.blit`: combines a source bitmap into a destination bitmap with
 * its top-left corner at (x, y), one row of bytes at a time.  `blit` clips
 * the placement against the destination, then picks one of three routines:
 * `blitUnshifted` when the clipped x is byte-aligned, otherwise
 * `blitSpecialShifted` when the shifted row fits in as many bytes as the
 * source row, and `blitShifted` (one more byte per row) otherwise.  The two
 * shifted routines carry the bits of each source byte into the next
 * destination byte through a 16-bit `short` register.
 *
 * `BlitLines` gives the destination bytes after every row is combined;
 * the three routines are proved to produce it, and the lemmas at the end
 * state what it means: bytes outside the rows' windows are kept, each byte
 * of a row is the old byte combined with that row's byte, and XOR-ing the
 * same source twice restores the destination.
 */
module Blitting {
  import opened BitUtil
  import opened Bits
  import opened PackedBitmap
  import opened Compositing

  datatype Strategy = Unshifted | SpecialShifted | Shifted

  /** The values `blit` computes before it calls one of the copy routines. */
  datatype BlitPlan = BlitPlan(x: int, y: int, startLine: int, lastLine: int,
                               srcStartIdx: int, srcEndIdx: int, dstStartIdx: int,
                               shiftVal1: bv8, padding: int, toShift: int, strategy: Strategy)

  function Min(a: int, b: int): int
  {
    if a <= b then a else b
  }

  /**
   * The clipping and strategy choice of `blit`.  When the source starts
   * above the destination (y < 0), the first source row is moved down by
   * `topRows` rows: the code as written moves it by one row whatever y is
   * (`PlanAsWritten`), where `-y` rows are skipped (`Plan`).
   */
  function PlanFor(srcWidth: int, srcHeight: int, srcStride: int, dstWidth: int, dstHeight: int,
                   dstStride: int, x: int, y: int, topRows: int): (p: BlitPlan)
    ensures p.x == (if x < 0 then 0 else x) && p.y == (if y < 0 then 0 else y)
    ensures p.shiftVal1 == Offset(p.x) && p.padding == srcWidth % 8
    ensures p.toShift == 8 - p.x % 8 - p.padding
    ensures p.strategy == Unshifted <==> p.x % 8 == 0
    ensures p.strategy == SpecialShifted
      <==> p.x % 8 != 0 && srcWidth <= 8 * (p.srcEndIdx - p.srcStartIdx) + (8 - p.x % 8)
    ensures p.dstStartIdx == ByteIndex(dstStride, p.x, p.y)
    ensures p.lastLine == Min(srcHeight, p.startLine + dstHeight)
  {
    var x1 := if x < 0 then 0 else x;
    var startIdx := if x < 0 then -x else 0;
    var endIdx := if x >= 0 && x + srcWidth > dstWidth then srcStride - 1 - (srcWidth + x - dstWidth)
                  else srcStride - 1;
    var y1 := if y < 0 then 0 else y;
    var startLine := if y < 0 then -y else if y + srcHeight > dstHeight then srcHeight + y - dstHeight else 0;
    var srcStartIdx := if y < 0 then startIdx + topRows * srcStride else startIdx;
    var srcEndIdx := if y < 0 then endIdx + topRows * srcStride else endIdx;
    var shiftVal1 := Offset(x1);
    var shiftVal2 := 8 - x1 % 8;
    var padding := srcWidth % 8;
    var useShift := shiftVal2 % 8 != 0;
    var specialCase := srcWidth <= 8 * (srcEndIdx - srcStartIdx) + shiftVal2;
    BlitPlan(x1, y1, startLine, Min(srcHeight, startLine + dstHeight), srcStartIdx, srcEndIdx,
             ByteIndex(dstStride, x1, y1), shiftVal1, padding, shiftVal2 - padding,
             if !useShift then Unshifted else if specialCase then SpecialShifted else Shifted)
  }

  /** `blit`'s clipping exactly as written: one source row skipped whenever y < 0. */
  function PlanAsWritten(srcWidth: int, srcHeight: int, srcStride: int, dstWidth: int,
                         dstHeight: int, dstStride: int, x: int, y: int): (p: BlitPlan)
    ensures y < 0 ==>
      p.startLine == -y
      && p.srcStartIdx == PlanFor(srcWidth, srcHeight, srcStride, dstWidth, dstHeight, dstStride,
                                  x, 0, 0).srcStartIdx + srcStride
  {
    PlanFor(srcWidth, srcHeight, srcStride, dstWidth, dstHeight, dstStride, x, y, 1)
  }

  /** `blit`'s clipping with the `-y` hidden source rows skipped. */
  function Plan(srcWidth: int, srcHeight: int, srcStride: int, dstWidth: int, dstHeight: int,
                dstStride: int, x: int, y: int): (p: BlitPlan)
    ensures y < 0 ==>
      p.startLine == -y
      && p.srcStartIdx == PlanFor(srcWidth, srcHeight, srcStride, dstWidth, dstHeight, dstStride,
                                  x, 0, 0).srcStartIdx + (-y) * srcStride
  {
    PlanFor(srcWidth, srcHeight, srcStride, dstWidth, dstHeight, dstStride, x, y, -y)
  }

  /**
   * A source 8 x 3 placed at (0, -2) on an 8 x 1 destination: the row that
   * lands on destination row 0 is source row 2 (byte 2), but the code as
   * written copies source row 1 (byte 1).
   */
  lemma PlanSkipsOneRow()
    ensures PlanAsWritten(8, 3, 1, 8, 1, 1, 0, -2).srcStartIdx == 1
    ensures PlanAsWritten(8, 3, 1, 8, 1, 1, 0, -2).lastLine
      - PlanAsWritten(8, 3, 1, 8, 1, 1, 0, -2).startLine == 1
    ensures Plan(8, 3, 1, 8, 1, 1, 0, -2).srcStartIdx == 2
  {
  }

  /**
   * A placement inside the destination is not clipped: every source row and
   * every source byte is used, written from the byte of (x, y) on, and the
   * special case is the one where the shifted row fits in `srcStride` bytes.
   */
  lemma PlanInside(srcWidth: int, srcHeight: int, srcStride: int, dstWidth: int, dstHeight: int,
                   dstStride: int, x: int, y: int)
    requires 0 <= x && x + srcWidth <= dstWidth && 0 <= y && y + srcHeight <= dstHeight
    ensures var p := Plan(srcWidth, srcHeight, srcStride, dstWidth, dstHeight, dstStride, x, y);
      p.x == x && p.y == y && p.startLine == 0 && p.lastLine == srcHeight
      && p.srcStartIdx == 0 && p.srcEndIdx == srcStride - 1
      && p.dstStartIdx == ByteIndex(dstStride, x, y)
      && (p.strategy == SpecialShifted <==> x % 8 != 0 && srcWidth + x % 8 <= 8 * srcStride)
  {
  }

  // ---------------------------------------------------------------------------
  // The bytes of one row

  /** How the bytes of a row are made: the strategy and the values it needs. */
  datatype LineMode = LineMode(strategy: Strategy, shiftVal1: bv8, toShift: int, padding: int)

  /** The values of a plan the chosen routine receives. */
  function ModeOf(p: BlitPlan): LineMode
  {
    match p.strategy
    case Unshifted => LineMode(Unshifted, 0, 0, 0)
    case SpecialShifted => LineMode(SpecialShifted, p.shiftVal1, p.toShift, 0)
    case Shifted => LineMode(Shifted, p.shiftVal1, p.toShift, p.padding)
  }

  /** The shifted strategies shift by 1..7 bits; the unshifted one by none. */
  predicate ModeOk(m: LineMode)
  {
    m.shiftVal1 < 8 && (m.strategy == Unshifted <==> m.shiftVal1 == 0)
  }

  lemma ModeOfPlan(srcWidth: int, srcHeight: int, srcStride: int, dstWidth: int, dstHeight: int,
                   dstStride: int, x: int, y: int)
    ensures ModeOk(ModeOf(PlanAsWritten(srcWidth, srcHeight, srcStride, dstWidth, dstHeight, dstStride, x, y)))
  {
    var p := PlanAsWritten(srcWidth, srcHeight, srcStride, dstWidth, dstHeight, dstStride, x, y);
    OffsetZero(p.x);
  }

  /** The destination bytes written for the source row `lo..hi`: one more for `Shifted`. */
  function LineLength(lo: int, hi: int, strategy: Strategy): int
  {
    if hi < lo then 0 else if strategy == Shifted then hi - lo + 2 else hi - lo + 1
  }

  /** The source byte before `k` in a row starting at `lo`, or 0 (the empty register) at the start. */
  function Prev(src: seq<bv8>, lo: int, k: int): bv8
    requires 0 <= lo && lo + k <= |src| && 0 <= k
  {
    if k == 0 then 0 else src[lo + k - 1]
  }

  /**
   * The bytes `blitSpecialShifted` writes for source bytes `lo..hi`: byte `k`
   * joins the tail of source byte `k - 1` to the head of source byte `k`
   * (shifted right by `shiftVal1`), and the last byte is unpadded by `toShift`.
   */
  function SpecialLine(src: seq<bv8>, lo: int, hi: int, shiftVal1: bv8, toShift: int): (r: seq<bv8>)
    requires 0 < shiftVal1 < 8 && 0 <= lo <= hi < |src|
  {
    seq(hi - lo + 1, k requires 0 <= k < hi - lo + 1 => SpecialLineByte(src, lo, hi, shiftVal1, toShift, k))
  }

  /** Byte `k` of `SpecialLine`. */
  function SpecialLineByte(src: seq<bv8>, lo: int, hi: int, shiftVal1: bv8, toShift: int, k: int): bv8
    requires 0 < shiftVal1 < 8 && 0 <= lo && 0 <= k <= hi - lo && hi < |src|
  {
    var b := MergeBytes(Prev(src, lo, k), src[lo + k], 8 - shiftVal1);
    if k == hi - lo then Unpad(toShift, b) else b
  }

  /**
   * The extra byte of `blitShifted`: the last source byte's bits that did not
   * fit, unpadded by `8 + toShift` when the source width is not a multiple of 8.
   */
  function TailByte(last: bv8, shiftVal1: bv8, toShift: int, padding: int): bv8
    requires 0 < shiftVal1 < 8
  {
    var t := last << (8 - shiftVal1);
    if padding != 0 then Unpad(8 + toShift, t) else t
  }

  /** The bytes `blitShifted` writes: the joined bytes, then the tail byte. */
  function ShiftedLine(src: seq<bv8>, lo: int, hi: int, shiftVal1: bv8, toShift: int, padding: int)
    : (r: seq<bv8>)
    requires 0 < shiftVal1 < 8 && 0 <= lo <= hi < |src|
  {
    seq(hi - lo + 2, k requires 0 <= k < hi - lo + 2 =>
      ShiftedLineByte(src, lo, hi, shiftVal1, toShift, padding, k))
  }

  /** Byte `k` of `ShiftedLine`. */
  function ShiftedLineByte(src: seq<bv8>, lo: int, hi: int, shiftVal1: bv8, toShift: int, padding: int,
                           k: int): bv8
    requires 0 < shiftVal1 < 8 && 0 <= lo <= hi < |src| && 0 <= k <= hi - lo + 1
  {
    if k == hi - lo + 1 then TailByte(src[hi], shiftVal1, toShift, padding)
    else MergeBytes(Prev(src, lo, k), src[lo + k], 8 - shiftVal1)
  }

  /** The bytes `blitUnshifted` writes for source bytes `lo..hi`: those bytes themselves. */
  function UnshiftedLine(src: seq<bv8>, lo: int, hi: int): (r: seq<bv8>)
    requires 0 <= lo <= hi < |src|
  {
    seq(hi - lo + 1, k requires 0 <= k < hi - lo + 1 => src[lo + k])
  }

  /**
   * The destination bytes one row of a blit combines, in order: the source
   * bytes themselves, the special-shifted row, or the joined bytes followed
   * by the tail byte.  An empty row, or one outside the source, has none.
   */
  function LineBytes(src: seq<bv8>, lo: int, hi: int, m: LineMode): (r: seq<bv8>)
    ensures ModeOk(m) && (lo <= hi ==> 0 <= lo && hi < |src|) ==> |r| == LineLength(lo, hi, m.strategy)
  {
    if hi < lo || lo < 0 || |src| <= hi || !ModeOk(m) then []
    else match m.strategy
      case Unshifted => UnshiftedLine(src, lo, hi)
      case SpecialShifted => SpecialLine(src, lo, hi, m.shiftVal1, m.toShift)
      case Shifted => ShiftedLine(src, lo, hi, m.shiftVal1, m.toShift, m.padding)
  }

  /**
   * `bytes` combined by `op` into `d` from index `base` on, one byte after
   * the other as the routines store them (a byte outside `d` is dropped);
   * `CombineIntoAt` gives each byte.
   */
  function CombineInto(d: seq<bv8>, base: int, bytes: seq<bv8>, op: CombinationOperator): (r: seq<bv8>)
    ensures |r| == |d|
    decreases |bytes|
  {
    if |bytes| == 0 then d
    else
      var n := |bytes| - 1;
      var r := CombineInto(d, base, bytes[..n], op);
      if 0 <= base + n < |d| then r[base + n := CombineBytes(r[base + n], bytes[n], op)] else r
  }

  /** Inside the window each byte is combined with its row byte; outside it is kept. */
  lemma {:induction false} CombineIntoAt(d: seq<bv8>, base: int, bytes: seq<bv8>, op: CombinationOperator,
                                         i: int)
    requires 0 <= base && base + |bytes| <= |d| && 0 <= i < |d|
    ensures CombineInto(d, base, bytes, op)[i]
      == if base <= i < base + |bytes| then CombineBytes(d[i], bytes[i - base], op) else d[i]
    decreases |bytes|
  {
    if |bytes| > 0 {
      var n := |bytes| - 1;
      CombineIntoAt(d, base, bytes[..n], op, i);
      assert base <= i < base + n ==> bytes[..n][i - base] == bytes[i - base];
    }
  }

  /**
   * The invariant of the routines' byte loops: `cur` is `d` with the first
   * `n` bytes of the row combined from `base` on.
   */
  ghost predicate Written(cur: seq<bv8>, d: seq<bv8>, base: int, bytes: seq<bv8>, n: int,
                          op: CombinationOperator)
  {
    0 <= n <= |bytes| && cur == CombineInto(d, base, bytes[..n], op)
  }

  /** Before the first byte nothing is combined. */
  lemma WrittenNone(d: seq<bv8>, base: int, bytes: seq<bv8>, op: CombinationOperator)
    ensures Written(d, d, base, bytes, 0, op)
  {
    assert |bytes[..0]| == 0;
  }

  /**
   * The routines' step: the current destination `cur`, holding the first `k`
   * row bytes combined, gets its byte `oldByte` at `idx` combined with the
   * row's next byte `v`.
   */
  lemma WrittenStep(d: seq<bv8>, base: int, bytes: seq<bv8>, k: int, op: CombinationOperator,
                    cur: seq<bv8>, idx: int, oldByte: bv8, v: bv8)
    requires Written(cur, d, base, bytes, k, op) && k < |bytes| && 0 <= base && base + |bytes| <= |d|
    requires idx == base + k && oldByte == cur[idx] && v == bytes[k]
    ensures Written(cur[idx := CombineBytes(oldByte, v, op)], d, base, bytes, k + 1, op)
  {
    assert bytes[..k + 1][..k] == bytes[..k];
  }

  /** After the last byte the whole row is combined. */
  lemma WrittenAll(cur: seq<bv8>, d: seq<bv8>, base: int, bytes: seq<bv8>, op: CombinationOperator)
    requires Written(cur, d, base, bytes, |bytes|, op)
    ensures cur == CombineInto(d, base, bytes, op)
  {
    assert bytes[..|bytes|] == bytes;
  }

  // ---------------------------------------------------------------------------
  // All rows

  /**
   * Every row the routines touch lies in the buffers: source bytes `lo..hi`
   * of each row, and destination bytes from `dLo` on, `extra` more than the
   * source bytes.  Rows are `ss` bytes apart in the source and `ds` in the
   * destination.  An empty row touches nothing.
   */
  predicate LinesFit(srcLen: int, dstLen: int, ss: int, ds: int, lo: int, hi: int, dLo: int,
                     rows: int, extra: int)
    decreases rows
  {
    rows <= 0 || hi < lo
    || (0 <= lo && hi < srcLen && 0 <= dLo && dLo + (hi - lo) + extra < dstLen
        && LinesFit(srcLen, dstLen, ss, ds, lo + ss, hi + ss, dLo + ds, rows - 1, extra))
  }

  function Extra(m: LineMode): int
  {
    if m.strategy == Shifted then 1 else 0
  }

  /** The destination after `rows` rows are combined, the first from source bytes `lo..hi` at `dLo`. */
  function BlitLines(d: seq<bv8>, src: seq<bv8>, ss: int, ds: int, lo: int, hi: int, dLo: int,
                     rows: int, m: LineMode, op: CombinationOperator): (r: seq<bv8>)
    ensures |r| == |d|
    decreases rows
  {
    if rows <= 0 then d
    else BlitLines(CombineInto(d, dLo, LineBytes(src, lo, hi, m), op), src, ss, ds,
                   lo + ss, hi + ss, dLo + ds, rows - 1, m, op)
  }

  /** The loops' step: the first row lies in the buffers and the remaining rows fit. */
  lemma LinesFitNext(srcLen: int, dstLen: int, ss: int, ds: int, lo: int, hi: int, dLo: int,
                     rows: int, extra: int)
    requires LinesFit(srcLen, dstLen, ss, ds, lo, hi, dLo, rows, extra) && 0 < rows
    ensures lo <= hi ==> 0 <= lo && hi < srcLen && 0 <= dLo && dLo + (hi - lo) + extra < dstLen
    ensures LinesFit(srcLen, dstLen, ss, ds, lo + ss, hi + ss, dLo + ds, rows - 1, extra)
  {
    if hi < lo {
      LinesFitEmpty(srcLen, dstLen, ss, ds, lo + ss, hi + ss, dLo + ds, rows - 1, extra);
    }
  }

  lemma {:induction false} LinesFitEmpty(srcLen: int, dstLen: int, ss: int, ds: int, lo: int, hi: int,
                                         dLo: int, rows: int, extra: int)
    requires hi < lo
    ensures LinesFit(srcLen, dstLen, ss, ds, lo, hi, dLo, rows, extra)
  {
  }

  /**
   * What the remaining `rows` rows, the first from source bytes `lo..hi` at
   * `dLo`, make of `d`; `None` when one of them does not fit in the buffers.
   */
  function Pending(d: seq<bv8>, src: seq<bv8>, ss: int, ds: int, lo: int, hi: int, dLo: int,
                   rows: int, m: LineMode, op: CombinationOperator): Option<seq<bv8>>
  {
    if LinesFit(|src|, |d|, ss, ds, lo, hi, dLo, rows, Extra(m))
    then Some(BlitLines(d, src, ss, ds, lo, hi, dLo, rows, m, op))
    else None
  }

  // ---------------------------------------------------------------------------
  // The 16-bit register of the shifted routines

  /** `(byte) v`: the low 8 bits. */
  function LowByte(v: bv16): bv8
  {
    (v & 0xff) as bv8
  }

  /**
   * `register = (short) ((register | src & 0xff) << shiftVal2)` with the
   * previous source byte in the high half of the register.  Java widens the
   * `short` to `int` with its sign, but only the low 16 bits survive the cast
   * and a left shift moves no bit down, so the 16-bit value is exact.
   */
  function Load(prev: bv8, b: bv8, shiftVal1: bv8): bv16
    requires 0 < shiftVal1 < 8
  {
    (((prev as bv16) << 8) | b as bv16) << (8 - shiftVal1)
  }

  /** `(byte) (register >> 8)` after loading: the joined byte. */
  lemma RegisterByte(prev: bv8, b: bv8, shiftVal1: bv8)
    requires 0 < shiftVal1 < 8
    ensures LowByte(Load(prev, b, shiftVal1) >> 8) == MergeBytes(prev, b, 8 - shiftVal1)
  {
  }

  /** `register <<= shiftVal1` after loading leaves the loaded byte in the high half. */
  lemma RegisterKeep(prev: bv8, b: bv8, shiftVal1: bv8)
    requires 0 < shiftVal1 < 8
    ensures Load(prev, b, shiftVal1) << shiftVal1 == (b as bv16) << 8
  {
  }

  /** `(byte) (register >> (8 - shiftVal2))` at the end of a row: the last byte's remaining bits. */
  lemma RegisterTail(b: bv8, shiftVal1: bv8)
    requires 0 < shiftVal1 < 8
    ensures LowByte(((b as bv16) << 8) >> shiftVal1) == b << (8 - shiftVal1)
  {
  }

  /** Byte `k` of a special-shifted row: the joined byte, unpadded at the end of the row. */
  lemma SpecialByteAt(src: seq<bv8>, lo: int, hi: int, shiftVal1: bv8, toShift: int, k: int)
    requires 0 < shiftVal1 < 8 && 0 <= lo <= hi < |src| && 0 <= k <= hi - lo
    ensures LineBytes(src, lo, hi, LineMode(SpecialShifted, shiftVal1, toShift, 0))[k]
      == if k == hi - lo then Unpad(toShift, MergeBytes(Prev(src, lo, k), src[lo + k], 8 - shiftVal1))
         else MergeBytes(Prev(src, lo, k), src[lo + k], 8 - shiftVal1)
  {
    assert LineBytes(src, lo, hi, LineMode(SpecialShifted, shiftVal1, toShift, 0))
      == SpecialLine(src, lo, hi, shiftVal1, toShift);
  }

  /** Byte `k` of a shifted row: the joined byte, and after the last one the tail byte. */
  lemma ShiftedByteAt(src: seq<bv8>, lo: int, hi: int, shiftVal1: bv8, toShift: int, padding: int,
                      k: int)
    requires 0 < shiftVal1 < 8 && 0 <= lo <= hi < |src| && 0 <= k <= hi - lo
    ensures LineBytes(src, lo, hi, LineMode(Shifted, shiftVal1, toShift, padding))[k]
      == MergeBytes(Prev(src, lo, k), src[lo + k], 8 - shiftVal1)
    ensures LineBytes(src, lo, hi, LineMode(Shifted, shiftVal1, toShift, padding))[hi - lo + 1]
      == TailByte(src[hi], shiftVal1, toShift, padding)
  {
    assert LineBytes(src, lo, hi, LineMode(Shifted, shiftVal1, toShift, padding))
      == ShiftedLine(src, lo, hi, shiftVal1, toShift, padding);
  }

  /** The register holds the next row byte's predecessor once a byte is consumed. */
  lemma PrevNext(src: seq<bv8>, lo: int, k: int)
    requires 0 <= lo && 0 <= k && lo + k < |src|
    ensures Prev(src, lo, k + 1) == src[lo + k]
  {
  }

  // ---------------------------------------------------------------------------
  // The three routines

  /**
   * One byte through the register of the shifted routines:
   * `register = (short) ((register | b & 0xff) << shiftVal2)`, the written
   * byte `(byte) (register >> 8)`, then `register <<= shiftVal1`.  With the
   * previous source byte in the high half, the written byte joins it to `b`,
   * and afterwards `b` is in the high half.
   */
  method ShiftIn(register: bv16, ghost prev: bv8, b: bv8, shiftVal1: bv8)
    returns (newByte: bv8, next: bv16)
    requires 0 < shiftVal1 < 8 && register == (prev as bv16) << 8
    ensures newByte == MergeBytes(prev, b, 8 - shiftVal1)
    ensures next == (b as bv16) << 8
  {
    RegisterByte(prev, b, shiftVal1);
    RegisterKeep(prev, b, shiftVal1);
    var loaded := (register | (b as bv16)) << (8 - shiftVal1);
    newByte := LowByte(loaded >> 8);
    next := loaded << shiftVal1;
  }

  /** `(byte) (register >> (8 - shiftVal2))` with `b` in the high half: the bits of `b` not yet written. */
  method ShiftOut(register: bv16, ghost b: bv8, shiftVal1: bv8) returns (tail: bv8)
    requires 0 < shiftVal1 < 8 && register == (b as bv16) << 8
    ensures tail == b << (8 - shiftVal1)
  {
    RegisterTail(b, shiftVal1);
    tail := LowByte(register >> shiftVal1);
  }

  /**
   * `dst[idx] = combineBytes(dst[idx], v, op)` for row byte `k`: one more
   * byte of the row combined.
   */
  method StoreByte(dst: Bitmap, dstIdx: int, v: bv8, op: CombinationOperator,
                   ghost rowStart: seq<bv8>, ghost dstLo: int, ghost line: seq<bv8>, ghost k: int)
    requires Written(dst.bitmap[..], rowStart, dstLo, line, k, op)
    requires k < |line| && 0 <= dstLo && dstLo + |line| <= |rowStart|
    requires dstIdx == dstLo + k && v == line[k]
    modifies dst.bitmap
    ensures Written(dst.bitmap[..], rowStart, dstLo, line, k + 1, op)
  {
    ghost var cur := dst.bitmap[..];
    var oldByte := dst.bitmap[dstIdx];
    WrittenStep(rowStart, dstLo, line, k, op, cur, dstIdx, oldByte, v);
    dst.SetByte(dstIdx, CombineBytes(oldByte, v, op));
  }

  /**
   * One row of `blitUnshifted`: `srcHi - srcLo + 1` bytes combined byte for
   * byte, none when the row is empty.  The Java code has one loop per
   * operator (and `System.arraycopy` for REPLACE over more than 8 bytes);
   * each stores `combineBytes(old, new, op)`.
   */
  method UnshiftedRow(src: Bitmap, dst: Bitmap, srcLo: int, srcHi: int, dstLo: int,
                      op: CombinationOperator)
    requires src.bitmap != dst.bitmap
    requires srcLo <= srcHi ==>
      0 <= srcLo && srcHi < src.bitmap.Length && 0 <= dstLo && dstLo + (srcHi - srcLo) < dst.bitmap.Length
    modifies dst.bitmap
    ensures dst.bitmap[..] == CombineInto(old(dst.bitmap[..]), dstLo,
      LineBytes(src.bitmap[..], srcLo, srcHi, LineMode(Unshifted, 0, 0, 0)), op)
  {
    ghost var rowStart := dst.bitmap[..];
    ghost var line := LineBytes(src.bitmap[..], srcLo, srcHi, LineMode(Unshifted, 0, 0, 0));
    var length := srcHi - srcLo + 1;
    WrittenNone(rowStart, dstLo, line, op);
    var srcIdx, dstIdx, count := srcLo, dstLo, length;
    while count > 0
      invariant count <= 0 ==> length - count == |line|
      invariant srcIdx == srcLo + (length - count) && dstIdx == dstLo + (length - count)
      invariant Written(dst.bitmap[..], rowStart, dstLo, line, length - count, op)
    {
      assert line[length - count] == src.bitmap[srcIdx];
      StoreByte(dst, dstIdx, src.bitmap[srcIdx], op, rowStart, dstLo, line, length - count);
      srcIdx, dstIdx, count := srcIdx + 1, dstIdx + 1, count - 1;
    }
    WrittenAll(dst.bitmap[..], rowStart, dstLo, line, op);
  }

  /** One pass of `blitUnshifted`'s row loop: its row, then the remaining rows. */
  method UnshiftedStep(src: Bitmap, dst: Bitmap, srcLo: int, srcHi: int, dstLo: int, ghost rows: int,
                       op: CombinationOperator, ghost target: seq<bv8>)
    requires src.bitmap != dst.bitmap && 0 < rows
    requires Pending(dst.bitmap[..], src.bitmap[..], src.rowStride, dst.rowStride, srcLo, srcHi,
                       dstLo, rows, LineMode(Unshifted, 0, 0, 0), op) == Some(target)
    modifies dst.bitmap
    ensures Pending(dst.bitmap[..], src.bitmap[..], src.rowStride, dst.rowStride,
                      srcLo + src.rowStride, srcHi + src.rowStride, dstLo + dst.rowStride, rows - 1,
                      LineMode(Unshifted, 0, 0, 0), op) == Some(target)
  {
    LinesFitNext(src.bitmap.Length, dst.bitmap.Length, src.rowStride, dst.rowStride, srcLo, srcHi,
                 dstLo, rows, 0);
    UnshiftedRow(src, dst, srcLo, srcHi, dstLo, op);
  }

  /**
   * `blitUnshifted`: `UnshiftedRow` over `lastLine - startLine` rows, each
   * index advancing by its bitmap's row stride.
   */
  method BlitUnshifted(src: Bitmap, dst: Bitmap, startLine: int, lastLine: int, dstStartIdx: int,
                       srcStartIdx: int, srcEndIdx: int, op: CombinationOperator)
    requires src.bitmap != dst.bitmap
    requires LinesFit(src.bitmap.Length, dst.bitmap.Length, src.rowStride, dst.rowStride,
                      srcStartIdx, srcEndIdx, dstStartIdx, lastLine - startLine, 0)
    modifies dst.bitmap
    ensures dst.bitmap[..] == BlitLines(old(dst.bitmap[..]), src.bitmap[..], src.rowStride,
      dst.rowStride, srcStartIdx, srcEndIdx, dstStartIdx, lastLine - startLine,
      LineMode(Unshifted, 0, 0, 0), op)
  {
    var lines := lastLine - startLine;
    var srcLo, srcHi, dstLo := srcStartIdx, srcEndIdx, dstStartIdx;
    ghost var target := BlitLines(dst.bitmap[..], src.bitmap[..], src.rowStride, dst.rowStride,
                                  srcLo, srcHi, dstLo, lines, LineMode(Unshifted, 0, 0, 0), op);
    while lines > 0
      invariant Pending(dst.bitmap[..], src.bitmap[..], src.rowStride, dst.rowStride, srcLo, srcHi,
                          dstLo, lines, LineMode(Unshifted, 0, 0, 0), op) == Some(target)
    {
      UnshiftedStep(src, dst, srcLo, srcHi, dstLo, lines, op, target);
      srcLo, srcHi, dstLo := srcLo + src.rowStride, srcHi + src.rowStride, dstLo + dst.rowStride;
      lines := lines - 1;
    }
  }

  /**
   * One byte of a `blitSpecialShifted` row: source byte `srcIdx` through
   * the register, unpadded by `toShift` when it is the row's last.
   */
  method SpecialShiftedByte(src: Bitmap, dst: Bitmap, srcLo: int, srcHi: int, dstLo: int, srcIdx: int,
                            dstIdx: int, register: bv16, toShift: int, shiftVal1: bv8,
                            op: CombinationOperator, ghost rowStart: seq<bv8>, ghost line: seq<bv8>)
    returns (next: bv16)
    requires src.bitmap != dst.bitmap && 0 < shiftVal1 < 8
    requires 0 <= srcLo <= srcIdx <= srcHi < src.bitmap.Length && 0 <= dstLo
    requires dstLo + (srcHi - srcLo) < dst.bitmap.Length && dstIdx == dstLo + (srcIdx - srcLo)
    requires line == LineBytes(src.bitmap[..], srcLo, srcHi, LineMode(SpecialShifted, shiftVal1, toShift, 0))
    requires register == (Prev(src.bitmap[..], srcLo, srcIdx - srcLo) as bv16) << 8
    requires Written(dst.bitmap[..], rowStart, dstLo, line, srcIdx - srcLo, op)
    modifies dst.bitmap
    ensures next == (Prev(src.bitmap[..], srcLo, srcIdx + 1 - srcLo) as bv16) << 8
    ensures Written(dst.bitmap[..], rowStart, dstLo, line, srcIdx + 1 - srcLo, op)
  {
    ghost var k := srcIdx - srcLo;
    SpecialByteAt(src.bitmap[..], srcLo, srcHi, shiftVal1, toShift, k);
    PrevNext(src.bitmap[..], srcLo, k);
    var newByte;
    newByte, next := ShiftIn(register, Prev(src.bitmap[..], srcLo, k), src.bitmap[srcIdx], shiftVal1);
    if srcIdx == srcHi {
      newByte := Unpad(toShift, newByte);
    }
    StoreByte(dst, dstIdx, newByte, op, rowStart, dstLo, line, k);
  }

  /**
   * One row of `blitSpecialShifted`: each source byte goes through the
   * register, shifted right by `shiftVal1`; the last byte is unpadded by
   * `toShift`.
   */
  method SpecialShiftedRow(src: Bitmap, dst: Bitmap, srcLo: int, srcHi: int, dstLo: int,
                           toShift: int, shiftVal1: bv8, op: CombinationOperator)
    requires src.bitmap != dst.bitmap && 0 < shiftVal1 < 8
    requires srcLo <= srcHi ==>
      0 <= srcLo && srcHi < src.bitmap.Length && 0 <= dstLo && dstLo + (srcHi - srcLo) < dst.bitmap.Length
    modifies dst.bitmap
    ensures dst.bitmap[..] == CombineInto(old(dst.bitmap[..]), dstLo,
      LineBytes(src.bitmap[..], srcLo, srcHi, LineMode(SpecialShifted, shiftVal1, toShift, 0)), op)
  {
    ghost var rowStart := dst.bitmap[..];
    ghost var line := LineBytes(src.bitmap[..], srcLo, srcHi, LineMode(SpecialShifted, shiftVal1, toShift, 0));
    WrittenNone(rowStart, dstLo, line, op);
    var register: bv16 := 0;
    var dstIdx := dstLo;
    var srcIdx := srcLo;
    while srcIdx <= srcHi
      invariant srcLo <= srcIdx && dstIdx == dstLo + (srcIdx - srcLo)
      invariant srcHi < srcIdx ==> srcIdx - srcLo == |line|
      invariant srcIdx <= srcHi ==> register == (Prev(src.bitmap[..], srcLo, srcIdx - srcLo) as bv16) << 8
      invariant Written(dst.bitmap[..], rowStart, dstLo, line, srcIdx - srcLo, op)
    {
      register := SpecialShiftedByte(src, dst, srcLo, srcHi, dstLo, srcIdx, dstIdx, register, toShift,
                                     shiftVal1, op, rowStart, line);
      dstIdx := dstIdx + 1;
      srcIdx := srcIdx + 1;
    }
    WrittenAll(dst.bitmap[..], rowStart, dstLo, line, op);
  }

  /** One pass of `blitSpecialShifted`'s row loop. */
  method SpecialShiftedStep(src: Bitmap, dst: Bitmap, srcLo: int, srcHi: int, dstLo: int, ghost rows: int,
                            toShift: int, shiftVal1: bv8, op: CombinationOperator,
                            ghost target: seq<bv8>)
    requires src.bitmap != dst.bitmap && 0 < shiftVal1 < 8 && 0 < rows
    requires Pending(dst.bitmap[..], src.bitmap[..], src.rowStride, dst.rowStride, srcLo, srcHi,
                       dstLo, rows, LineMode(SpecialShifted, shiftVal1, toShift, 0), op) == Some(target)
    modifies dst.bitmap
    ensures Pending(dst.bitmap[..], src.bitmap[..], src.rowStride, dst.rowStride,
                      srcLo + src.rowStride, srcHi + src.rowStride, dstLo + dst.rowStride, rows - 1,
                      LineMode(SpecialShifted, shiftVal1, toShift, 0), op) == Some(target)
  {
    LinesFitNext(src.bitmap.Length, dst.bitmap.Length, src.rowStride, dst.rowStride, srcLo, srcHi,
                 dstLo, rows, 0);
    SpecialShiftedRow(src, dst, srcLo, srcHi, dstLo, toShift, shiftVal1, op);
  }

  /** `blitSpecialShifted`: `SpecialShiftedRow` over `lastLine - startLine` rows. */
  method BlitSpecialShifted(src: Bitmap, dst: Bitmap, startLine: int, lastLine: int,
                            dstStartIdx: int, srcStartIdx: int, srcEndIdx: int, toShift: int,
                            shiftVal1: bv8, op: CombinationOperator)
    requires src.bitmap != dst.bitmap && 0 < shiftVal1 < 8
    requires LinesFit(src.bitmap.Length, dst.bitmap.Length, src.rowStride, dst.rowStride,
                      srcStartIdx, srcEndIdx, dstStartIdx, lastLine - startLine, 0)
    modifies dst.bitmap
    ensures dst.bitmap[..] == BlitLines(old(dst.bitmap[..]), src.bitmap[..], src.rowStride,
      dst.rowStride, srcStartIdx, srcEndIdx, dstStartIdx, lastLine - startLine,
      LineMode(SpecialShifted, shiftVal1, toShift, 0), op)
  {
    var dstLine, dstLo, srcLo, srcHi := startLine, dstStartIdx, srcStartIdx, srcEndIdx;
    ghost var target := BlitLines(dst.bitmap[..], src.bitmap[..], src.rowStride, dst.rowStride,
                                  srcLo, srcHi, dstLo, lastLine - dstLine,
                                  LineMode(SpecialShifted, shiftVal1, toShift, 0), op);
    ghost var rows := lastLine - dstLine;
    while dstLine < lastLine
      invariant rows == lastLine - dstLine
      invariant Pending(dst.bitmap[..], src.bitmap[..], src.rowStride, dst.rowStride, srcLo, srcHi,
                          dstLo, rows, LineMode(SpecialShifted, shiftVal1, toShift, 0), op) == Some(target)
    {
      SpecialShiftedStep(src, dst, srcLo, srcHi, dstLo, rows, toShift, shiftVal1, op, target);
      dstLine, dstLo := dstLine + 1, dstLo + dst.rowStride;
      rows := rows - 1;
      srcLo, srcHi := srcLo + src.rowStride, srcHi + src.rowStride;
    }
  }

  /** One byte of a `blitShifted` row: source byte `srcIdx` through the register. */
  method ShiftedByte(src: Bitmap, dst: Bitmap, srcLo: int, srcHi: int, dstLo: int, srcIdx: int,
                     dstIdx: int, register: bv16, toShift: int, shiftVal1: bv8, op: CombinationOperator,
                     padding: int, ghost rowStart: seq<bv8>, ghost line: seq<bv8>)
    returns (next: bv16)
    requires src.bitmap != dst.bitmap && 0 < shiftVal1 < 8
    requires 0 <= srcLo <= srcIdx <= srcHi < src.bitmap.Length && 0 <= dstLo
    requires dstLo + (srcHi - srcLo) + 1 < dst.bitmap.Length && dstIdx == dstLo + (srcIdx - srcLo)
    requires line == LineBytes(src.bitmap[..], srcLo, srcHi, LineMode(Shifted, shiftVal1, toShift, padding))
    requires register == (Prev(src.bitmap[..], srcLo, srcIdx - srcLo) as bv16) << 8
    requires Written(dst.bitmap[..], rowStart, dstLo, line, srcIdx - srcLo, op)
    modifies dst.bitmap
    ensures next == (Prev(src.bitmap[..], srcLo, srcIdx + 1 - srcLo) as bv16) << 8
    ensures Written(dst.bitmap[..], rowStart, dstLo, line, srcIdx + 1 - srcLo, op)
  {
    ghost var k := srcIdx - srcLo;
    ShiftedByteAt(src.bitmap[..], srcLo, srcHi, shiftVal1, toShift, padding, k);
    PrevNext(src.bitmap[..], srcLo, k);
    var newByte;
    newByte, next := ShiftIn(register, Prev(src.bitmap[..], srcLo, k), src.bitmap[srcIdx], shiftVal1);
    StoreByte(dst, dstIdx, newByte, op, rowStart, dstLo, line, k);
  }

  /**
   * The extra byte after a `blitShifted` row: the bits of the last source
   * byte still in the register, unpadded by `8 + toShift` when `padding` is
   * not 0.
   */
  method ShiftedTail(src: Bitmap, dst: Bitmap, srcLo: int, srcHi: int, dstLo: int, dstIdx: int,
                     register: bv16, toShift: int, shiftVal1: bv8, op: CombinationOperator,
                     padding: int, ghost rowStart: seq<bv8>, ghost line: seq<bv8>)
    requires src.bitmap != dst.bitmap && 0 < shiftVal1 < 8
    requires 0 <= srcLo <= srcHi < src.bitmap.Length && 0 <= dstLo
    requires dstLo + (srcHi - srcLo) + 1 < dst.bitmap.Length && dstIdx == dstLo + (srcHi + 1 - srcLo)
    requires line == LineBytes(src.bitmap[..], srcLo, srcHi, LineMode(Shifted, shiftVal1, toShift, padding))
    requires register == (Prev(src.bitmap[..], srcLo, srcHi + 1 - srcLo) as bv16) << 8
    requires Written(dst.bitmap[..], rowStart, dstLo, line, srcHi + 1 - srcLo, op)
    modifies dst.bitmap
    ensures Written(dst.bitmap[..], rowStart, dstLo, line, |line|, op)
  {
    ShiftedByteAt(src.bitmap[..], srcLo, srcHi, shiftVal1, toShift, padding, 0);
    PrevNext(src.bitmap[..], srcLo, srcHi - srcLo);
    var newByte := ShiftOut(register, src.bitmap[srcHi], shiftVal1);
    if padding != 0 {
      newByte := Unpad(8 + toShift, newByte);
    }
    StoreByte(dst, dstIdx, newByte, op, rowStart, dstLo, line, srcHi + 1 - srcLo);
  }

  /**
   * One row of `blitShifted`: as `SpecialShiftedRow` without unpadding, and
   * after the last source byte one more byte holds its remaining bits.
   */
  method ShiftedRowInto(src: Bitmap, dst: Bitmap, srcLo: int, srcHi: int, dstLo: int,
                        toShift: int, shiftVal1: bv8, op: CombinationOperator, padding: int)
    requires src.bitmap != dst.bitmap && 0 < shiftVal1 < 8
    requires srcLo <= srcHi ==>
      0 <= srcLo && srcHi < src.bitmap.Length && 0 <= dstLo && dstLo + (srcHi - srcLo) + 1 < dst.bitmap.Length
    modifies dst.bitmap
    ensures dst.bitmap[..] == CombineInto(old(dst.bitmap[..]), dstLo,
      LineBytes(src.bitmap[..], srcLo, srcHi, LineMode(Shifted, shiftVal1, toShift, padding)), op)
  {
    ghost var rowStart := dst.bitmap[..];
    ghost var line := LineBytes(src.bitmap[..], srcLo, srcHi, LineMode(Shifted, shiftVal1, toShift, padding));
    WrittenNone(rowStart, dstLo, line, op);
    var register: bv16 := 0;
    var dstIdx := dstLo;
    var srcIdx := srcLo;
    ghost var written := 0;
    while srcIdx <= srcHi
      invariant srcLo <= srcIdx
      invariant srcIdx <= srcHi ==> written == srcIdx - srcLo && dstIdx == dstLo + written
      invariant srcIdx <= srcHi ==> register == (Prev(src.bitmap[..], srcLo, srcIdx - srcLo) as bv16) << 8
      invariant srcHi < srcIdx ==> written == |line|
      invariant Written(dst.bitmap[..], rowStart, dstLo, line, written, op)
    {
      register := ShiftedByte(src, dst, srcLo, srcHi, dstLo, srcIdx, dstIdx, register, toShift,
                              shiftVal1, op, padding, rowStart, line);
      dstIdx := dstIdx + 1;
      written := srcIdx + 1 - srcLo;
      if srcIdx == srcHi {
        ShiftedTail(src, dst, srcLo, srcHi, dstLo, dstIdx, register, toShift, shiftVal1, op, padding,
                    rowStart, line);
        dstIdx := dstIdx + 1;
        written := |line|;
      }
      srcIdx := srcIdx + 1;
    }
    WrittenAll(dst.bitmap[..], rowStart, dstLo, line, op);
  }

  /** One pass of `blitShifted`'s row loop. */
  method ShiftedStep(src: Bitmap, dst: Bitmap, srcLo: int, srcHi: int, dstLo: int, ghost rows: int,
                     toShift: int, shiftVal1: bv8, op: CombinationOperator, padding: int,
                     ghost target: seq<bv8>)
    requires src.bitmap != dst.bitmap && 0 < shiftVal1 < 8 && 0 < rows
    requires Pending(dst.bitmap[..], src.bitmap[..], src.rowStride, dst.rowStride, srcLo, srcHi,
                       dstLo, rows, LineMode(Shifted, shiftVal1, toShift, padding), op) == Some(target)
    modifies dst.bitmap
    ensures Pending(dst.bitmap[..], src.bitmap[..], src.rowStride, dst.rowStride,
                      srcLo + src.rowStride, srcHi + src.rowStride, dstLo + dst.rowStride, rows - 1,
                      LineMode(Shifted, shiftVal1, toShift, padding), op) == Some(target)
  {
    LinesFitNext(src.bitmap.Length, dst.bitmap.Length, src.rowStride, dst.rowStride, srcLo, srcHi,
                 dstLo, rows, 1);
    ShiftedRowInto(src, dst, srcLo, srcHi, dstLo, toShift, shiftVal1, op, padding);
  }

  /** `blitShifted`: `ShiftedRowInto` over `lastLine - startLine` rows. */
  method BlitShifted(src: Bitmap, dst: Bitmap, startLine: int, lastLine: int,
                     dstStartIdx: int, srcStartIdx: int, srcEndIdx: int, toShift: int,
                     shiftVal1: bv8, op: CombinationOperator, padding: int)
    requires src.bitmap != dst.bitmap && 0 < shiftVal1 < 8
    requires LinesFit(src.bitmap.Length, dst.bitmap.Length, src.rowStride, dst.rowStride,
                      srcStartIdx, srcEndIdx, dstStartIdx, lastLine - startLine, 1)
    modifies dst.bitmap
    ensures dst.bitmap[..] == BlitLines(old(dst.bitmap[..]), src.bitmap[..], src.rowStride,
      dst.rowStride, srcStartIdx, srcEndIdx, dstStartIdx, lastLine - startLine,
      LineMode(Shifted, shiftVal1, toShift, padding), op)
  {
    var dstLine, dstLo, srcLo, srcHi := startLine, dstStartIdx, srcStartIdx, srcEndIdx;
    ghost var target := BlitLines(dst.bitmap[..], src.bitmap[..], src.rowStride, dst.rowStride,
                                  srcLo, srcHi, dstLo, lastLine - dstLine,
                                  LineMode(Shifted, shiftVal1, toShift, padding), op);
    ghost var rows := lastLine - dstLine;
    while dstLine < lastLine
      invariant rows == lastLine - dstLine
      invariant Pending(dst.bitmap[..], src.bitmap[..], src.rowStride, dst.rowStride, srcLo, srcHi,
                          dstLo, rows, LineMode(Shifted, shiftVal1, toShift, padding), op) == Some(target)
    {
      ShiftedStep(src, dst, srcLo, srcHi, dstLo, rows, toShift, shiftVal1, op, padding, target);
      dstLine, dstLo := dstLine + 1, dstLo + dst.rowStride;
      rows := rows - 1;
      srcLo, srcHi := srcLo + src.rowStride, srcHi + src.rowStride;
    }
  }

  /** The clipped rows of a plan lie in the buffers. */
  predicate PlanFits(p: BlitPlan, srcLen: int, dstLen: int, ss: int, ds: int)
  {
    LinesFit(srcLen, dstLen, ss, ds, p.srcStartIdx, p.srcEndIdx, p.dstStartIdx,
             p.lastLine - p.startLine, Extra(ModeOf(p)))
  }

  /**
   * `blit(src, dst, x, y, op)`: when every byte the chosen routine touches
   * lies in the buffers, the destination becomes what `BlitImage` gives;
   * otherwise the routine would index outside an array, and the model fails
   * without writing.
   */
  method Blit(src: Bitmap, dst: Bitmap, x: int, y: int, op: CombinationOperator) returns (r: Outcome)
    requires src.Valid() && dst.Valid() && src.bitmap != dst.bitmap
    modifies dst.bitmap
    ensures match BlitImage(old(dst.bitmap[..]), dst.width, dst.height, dst.rowStride, ImageOf(src), x, y, op)
      case None => r == Failure(IndexOutOfBounds) && dst.bitmap[..] == old(dst.bitmap[..])
      case Some(d') => r == Success && dst.bitmap[..] == d'
  {
    ghost var before := dst.bitmap[..];
    ghost var image := ImageOf(src);
    var p := PlanAsWritten(src.width, src.height, src.rowStride, dst.width, dst.height, dst.rowStride, x, y);
    assert image.bytes == src.bitmap[..] && image.stride == src.rowStride;
    assert p == PlanAsWritten(image.width, image.height, image.stride, dst.width, dst.height, dst.rowStride, x, y);
    ModeOfPlan(src.width, src.height, src.rowStride, dst.width, dst.height, dst.rowStride, x, y);
    if !PlanFits(p, src.bitmap.Length, dst.bitmap.Length, src.rowStride, dst.rowStride) {
      assert BlitImage(before, dst.width, dst.height, dst.rowStride, image, x, y, op).None?;
      return Failure(IndexOutOfBounds);
    }
    ghost var m := ModeOf(p);
    ghost var after := BlitLines(before, src.bitmap[..], src.rowStride, dst.rowStride, p.srcStartIdx,
                                 p.srcEndIdx, p.dstStartIdx, p.lastLine - p.startLine, m, op);
    assert BlitImage(before, dst.width, dst.height, dst.rowStride, image, x, y, op) == Some(after);
    if p.strategy == Unshifted {
      BlitUnshifted(src, dst, p.startLine, p.lastLine, p.dstStartIdx, p.srcStartIdx,
                    p.srcEndIdx, op);
    } else if p.strategy == SpecialShifted {
      BlitSpecialShifted(src, dst, p.startLine, p.lastLine, p.dstStartIdx, p.srcStartIdx,
                         p.srcEndIdx, p.toShift, p.shiftVal1, op);
    } else {
      BlitShifted(src, dst, p.startLine, p.lastLine, p.dstStartIdx, p.srcStartIdx,
                  p.srcEndIdx, p.toShift, p.shiftVal1, op, p.padding);
    }
    assert dst.bitmap[..] == after;
    r := Success;
  }

  // ---------------------------------------------------------------------------
  // What a blit does to the destination

  /** The bytes of the row made from source bytes `lo..hi`, for a blit from `src` in mode `m`. */
  function RowsOf(src: seq<bv8>, m: LineMode): (int, int) -> seq<bv8>
  {
    (lo: int, hi: int) => LineBytes(src, lo, hi, m)
  }

  /**
   * `BlitLines` with the bytes of each row given by `row` from the row's
   * source bytes: the same loop over rows, whatever the rows hold.
   */
  function BlitWith(d: seq<bv8>, row: (int, int) -> seq<bv8>, ss: int, ds: int, lo: int, hi: int,
                    dLo: int, rows: int, op: CombinationOperator): (r: seq<bv8>)
    ensures |r| == |d|
    decreases rows
  {
    if rows <= 0 then d
    else BlitWith(CombineInto(d, dLo, row(lo, hi), op), row, ss, ds, lo + ss, hi + ss, dLo + ds, rows - 1, op)
  }

  /** `BlitLines` is `BlitWith` the rows the chosen routine makes. */
  lemma {:induction false} BlitLinesWith(d: seq<bv8>, src: seq<bv8>, ss: int, ds: int, lo: int, hi: int,
                                         dLo: int, rows: int, m: LineMode, op: CombinationOperator, i: int)
    requires 0 <= i < |d|
    ensures BlitLines(d, src, ss, ds, lo, hi, dLo, rows, m, op)[i]
      == BlitWith(d, RowsOf(src, m), ss, ds, lo, hi, dLo, rows, op)[i]
    decreases rows
  {
    if rows > 0 {
      assert RowsOf(src, m)(lo, hi) == LineBytes(src, lo, hi, m);
      BlitLinesWith(CombineInto(d, dLo, LineBytes(src, lo, hi, m), op), src, ss, ds, lo + ss, hi + ss,
                    dLo + ds, rows - 1, m, op, i);
    }
  }

  /** Every non-empty row lies in a destination of `n` bytes. */
  predicate RowsInside(n: int, row: (int, int) -> seq<bv8>, ss: int, ds: int, lo: int, hi: int, dLo: int,
                       rows: int)
    decreases rows
  {
    rows <= 0
    || ((|row(lo, hi)| == 0 || (0 <= dLo && dLo + |row(lo, hi)| <= n))
        && RowsInside(n, row, ss, ds, lo + ss, hi + ss, dLo + ds, rows - 1))
  }

  /** No row is longer than the destination stride, so no two rows share a byte. */
  predicate RowsApart(row: (int, int) -> seq<bv8>, ss: int, ds: int, lo: int, hi: int, rows: int)
    decreases rows
  {
    rows <= 0 || (|row(lo, hi)| <= ds && RowsApart(row, ss, ds, lo + ss, hi + ss, rows - 1))
  }

  /** Byte `i` is in no row's window. */
  predicate OutsideRows(i: int, row: (int, int) -> seq<bv8>, ss: int, ds: int, lo: int, hi: int, dLo: int,
                        rows: int)
    decreases rows
  {
    rows <= 0
    || ((i < dLo || dLo + |row(lo, hi)| <= i) && OutsideRows(i, row, ss, ds, lo + ss, hi + ss, dLo + ds, rows - 1))
  }

  /** A byte before the first window is before all of them when the windows move forward. */
  lemma {:induction false} OutsideBefore(i: int, row: (int, int) -> seq<bv8>, ss: int, ds: int, lo: int,
                                         hi: int, dLo: int, rows: int)
    requires i < dLo && 0 <= ds
    ensures OutsideRows(i, row, ss, ds, lo, hi, dLo, rows)
    decreases rows
  {
    if rows > 0 {
      OutsideBefore(i, row, ss, ds, lo + ss, hi + ss, dLo + ds, rows - 1);
    }
  }

  /** The rows keep every byte outside their windows. */
  lemma {:induction false} BlitWithFrame(d: seq<bv8>, row: (int, int) -> seq<bv8>, ss: int, ds: int, lo: int,
                                         hi: int, dLo: int, rows: int, op: CombinationOperator, i: int)
    requires RowsInside(|d|, row, ss, ds, lo, hi, dLo, rows) && 0 <= i < |d|
    requires OutsideRows(i, row, ss, ds, lo, hi, dLo, rows)
    ensures BlitWith(d, row, ss, ds, lo, hi, dLo, rows, op)[i] == d[i]
    decreases rows
  {
    if rows > 0 {
      var c := CombineInto(d, dLo, row(lo, hi), op);
      if |row(lo, hi)| > 0 {
        CombineIntoAt(d, dLo, row(lo, hi), op, i);
      }
      BlitWithFrame(c, row, ss, ds, lo + ss, hi + ss, dLo + ds, rows - 1, op, i);
    }
  }

  /** `j` strides of a non-negative stride are at least one stride when `j > 0`. */
  lemma {:induction false} TimesAtLeast(j: int, len: int, p: int)
    requires Times(j, len, p) && 0 <= len
    ensures 0 <= p && (0 < j ==> len <= p)
    decreases j
  {
    if j > 0 {
      TimesAtLeast(j - 1, len, p - len);
    }
  }

  /**
   * With rows apart, byte `k` of row `j` lands on byte `i` (`jd` destination
   * strides on) and is combined with the old byte there; `a..b` are the
   * row's source bytes, `js` source strides on.
   */
  lemma {:induction false} BlitWithAt(d: seq<bv8>, row: (int, int) -> seq<bv8>, ss: int, ds: int, lo: int,
                                      hi: int, dLo: int, rows: int, op: CombinationOperator, j: int, k: int,
                                      jd: int, js: int, a: int, b: int, i: int)
    requires RowsInside(|d|, row, ss, ds, lo, hi, dLo, rows) && RowsApart(row, ss, ds, lo, hi, rows)
    requires 0 <= ds && j < rows && Times(j, ds, jd) && Times(j, ss, js)
    requires a == lo + js && b == hi + js && 0 <= k < |row(a, b)| && i == dLo + jd + k
    ensures 0 <= i < |d|
    ensures BlitWith(d, row, ss, ds, lo, hi, dLo, rows, op)[i] == CombineBytes(d[i], row(a, b)[k], op)
    decreases j
  {
    var c := CombineInto(d, dLo, row(lo, hi), op);
    if j == 0 {
      assert a == lo && b == hi && i == dLo + k;
      CombineIntoAt(d, dLo, row(lo, hi), op, i);
      OutsideBefore(i, row, ss, ds, lo + ss, hi + ss, dLo + ds, rows - 1);
      BlitWithFrame(c, row, ss, ds, lo + ss, hi + ss, dLo + ds, rows - 1, op, i);
    } else {
      TimesAtLeast(j, ds, jd);
      BlitWithAt(c, row, ss, ds, lo + ss, hi + ss, dLo + ds, rows - 1, op, j - 1, k, jd - ds, js - ss, a, b, i);
      if |row(lo, hi)| > 0 {
        CombineIntoAt(d, dLo, row(lo, hi), op, i);
      }
    }
  }

  /** A row the routines make is empty or as long as `LineLength` says. */
  lemma RowLength(src: seq<bv8>, lo: int, hi: int, m: LineMode)
    requires ModeOk(m)
    ensures |LineBytes(src, lo, hi, m)| == 0 || |LineBytes(src, lo, hi, m)| == LineLength(lo, hi, m.strategy)
    ensures 0 <= LineLength(lo, hi, m.strategy)
    ensures (lo <= hi ==> 0 <= lo && hi < |src|) ==> |LineBytes(src, lo, hi, m)| == LineLength(lo, hi, m.strategy)
  {
  }

  /** Rows that fit the buffers lie in the destination. */
  lemma {:induction false} RowsOfInside(src: seq<bv8>, n: int, ss: int, ds: int, lo: int, hi: int, dLo: int,
                                        rows: int, m: LineMode)
    requires ModeOk(m) && LinesFit(|src|, n, ss, ds, lo, hi, dLo, rows, Extra(m))
    ensures RowsInside(n, RowsOf(src, m), ss, ds, lo, hi, dLo, rows)
    decreases rows
  {
    if rows > 0 {
      LinesFitNext(|src|, n, ss, ds, lo, hi, dLo, rows, Extra(m));
      RowLength(src, lo, hi, m);
      assert RowsOf(src, m)(lo, hi) == LineBytes(src, lo, hi, m);
      RowsOfInside(src, n, ss, ds, lo + ss, hi + ss, dLo + ds, rows - 1, m);
    }
  }

  /** Rows no longer than the destination stride are apart. */
  lemma {:induction false} RowsOfApart(src: seq<bv8>, ss: int, ds: int, lo: int, hi: int, rows: int,
                                       m: LineMode)
    requires ModeOk(m) && LineLength(lo, hi, m.strategy) <= ds
    ensures RowsApart(RowsOf(src, m), ss, ds, lo, hi, rows)
    decreases rows
  {
    if rows > 0 {
      RowLength(src, lo, hi, m);
      assert RowsOf(src, m)(lo, hi) == LineBytes(src, lo, hi, m);
      assert LineLength(lo + ss, hi + ss, m.strategy) == LineLength(lo, hi, m.strategy);
      RowsOfApart(src, ss, ds, lo + ss, hi + ss, rows - 1, m);
    }
  }

  /**
   * Byte `i` lies outside every row window: the windows are `len` bytes
   * long, the first at `dLo`, each next one `ds` bytes further on.
   */
  predicate Outside(i: int, dLo: int, ds: int, rows: int, len: int)
    decreases rows
  {
    rows <= 0 || ((i < dLo || dLo + len <= i) && Outside(i, dLo + ds, ds, rows - 1, len))
  }

  lemma {:induction false} RowsOfOutside(src: seq<bv8>, i: int, ss: int, ds: int, lo: int, hi: int, dLo: int,
                                         rows: int, m: LineMode)
    requires ModeOk(m) && Outside(i, dLo, ds, rows, LineLength(lo, hi, m.strategy))
    ensures OutsideRows(i, RowsOf(src, m), ss, ds, lo, hi, dLo, rows)
    decreases rows
  {
    if rows > 0 {
      RowLength(src, lo, hi, m);
      assert RowsOf(src, m)(lo, hi) == LineBytes(src, lo, hi, m);
      assert LineLength(lo + ss, hi + ss, m.strategy) == LineLength(lo, hi, m.strategy);
      RowsOfOutside(src, i, ss, ds, lo + ss, hi + ss, dLo + ds, rows - 1, m);
    }
  }

  /**
   * A blit keeps every destination byte outside the rows' windows: the
   * routines write nothing but their rows.
   */
  lemma BlitLinesFrame(d: seq<bv8>, src: seq<bv8>, ss: int, ds: int, lo: int, hi: int, dLo: int, rows: int,
                       m: LineMode, op: CombinationOperator, i: int)
    requires ModeOk(m) && LinesFit(|src|, |d|, ss, ds, lo, hi, dLo, rows, Extra(m)) && 0 <= i < |d|
    requires Outside(i, dLo, ds, rows, LineLength(lo, hi, m.strategy))
    ensures BlitLines(d, src, ss, ds, lo, hi, dLo, rows, m, op)[i] == d[i]
  {
    BlitLinesWith(d, src, ss, ds, lo, hi, dLo, rows, m, op, i);
    RowsOfInside(src, |d|, ss, ds, lo, hi, dLo, rows, m);
    RowsOfOutside(src, i, ss, ds, lo, hi, dLo, rows, m);
    BlitWithFrame(d, RowsOf(src, m), ss, ds, lo, hi, dLo, rows, op, i);
  }

  /** Row `j` of rows that fit lies in the buffers. */
  lemma {:induction false} LinesFitRow(srcLen: int, dstLen: int, ss: int, ds: int, lo: int, hi: int, dLo: int,
                                       rows: int, extra: int, j: int, js: int)
    requires LinesFit(srcLen, dstLen, ss, ds, lo, hi, dLo, rows, extra) && j < rows && Times(j, ss, js)
    ensures lo <= hi ==> 0 <= lo + js && hi + js < srcLen
    decreases j
  {
    LinesFitNext(srcLen, dstLen, ss, ds, lo, hi, dLo, rows, extra);
    if j > 0 {
      LinesFitRow(srcLen, dstLen, ss, ds, lo + ss, hi + ss, dLo + ds, rows - 1, extra, j - 1, js - ss);
    }
  }

  /**
   * Byte `k` of row `j` of a blit whose rows do not overlap (each row's
   * bytes fit in a destination stride) is the old byte combined with byte
   * `k` of the row made from the source bytes `a..b`, `j` source strides
   * down: `blitUnshifted` combines the source bytes themselves, the shifted
   * routines the bytes `SpecialByteAt` and `ShiftedByteAt` give.  `jd` and
   * `js` are `j` destination and `j` source strides, and the byte is
   * destination byte `i`.
   */
  lemma BlitLinesAt(d: seq<bv8>, src: seq<bv8>, ss: int, ds: int, lo: int, hi: int, dLo: int, rows: int,
                    m: LineMode, op: CombinationOperator, j: int, k: int, jd: int, js: int, a: int, b: int,
                    i: int)
    requires ModeOk(m) && LinesFit(|src|, |d|, ss, ds, lo, hi, dLo, rows, Extra(m))
    requires LineLength(lo, hi, m.strategy) <= ds
    requires j < rows && 0 <= k < LineLength(lo, hi, m.strategy) && Times(j, ds, jd) && Times(j, ss, js)
    requires a == lo + js && b == hi + js && i == dLo + jd + k
    ensures 0 <= i < |d| && |LineBytes(src, a, b, m)| == LineLength(lo, hi, m.strategy)
    ensures BlitLines(d, src, ss, ds, lo, hi, dLo, rows, m, op)[i]
      == CombineBytes(d[i], LineBytes(src, a, b, m)[k], op)
  {
    RowsOfInside(src, |d|, ss, ds, lo, hi, dLo, rows, m);
    RowsOfApart(src, ss, ds, lo, hi, rows, m);
    LinesFitRow(|src|, |d|, ss, ds, lo, hi, dLo, rows, Extra(m), j, js);
    RowLength(src, a, b, m);
    assert LineLength(a, b, m.strategy) == LineLength(lo, hi, m.strategy);
    assert RowsOf(src, m)(a, b) == LineBytes(src, a, b, m);
    BlitWithAt(d, RowsOf(src, m), ss, ds, lo, hi, dLo, rows, op, j, k, jd, js, a, b, i);
    BlitLinesWith(d, src, ss, ds, lo, hi, dLo, rows, m, op, i);
  }

  /** Every byte of `z` is 0. */
  predicate AllZero(z: seq<bv8>)
  {
    forall i :: 0 <= i < |z| ==> z[i] == 0
  }

  lemma XorAssoc(a: bv8, b: bv8, c: bv8)
    ensures (a ^ b) ^ c == a ^ (b ^ c)
  {
  }

  /**
   * Combining with XOR flips the bits of the bytes it reaches whatever they
   * hold: byte `i` is the old byte XOR the byte the same row makes of zeros.
   */
  lemma {:induction false} CombineIntoXor(d: seq<bv8>, z: seq<bv8>, base: int, bytes: seq<bv8>, i: int)
    requires AllZero(z) && |z| == |d| && 0 <= i < |d|
    ensures CombineInto(d, base, bytes, XOR)[i] == d[i] ^ CombineInto(z, base, bytes, XOR)[i]
    decreases |bytes|
  {
    if |bytes| > 0 {
      var n := |bytes| - 1;
      CombineIntoXor(d, z, base, bytes[..n], i);
      if i == base + n {
        XorAssoc(d[i], CombineInto(z, base, bytes[..n], XOR)[i], bytes[n]);
      }
    }
  }

  /** XOR-ing rows onto any destination XORs it with the rows XOR-ed onto zeros. */
  lemma {:induction false} BlitWithXorMask(d: seq<bv8>, z: seq<bv8>, row: (int, int) -> seq<bv8>, ss: int,
                                           ds: int, lo: int, hi: int, dLo: int, rows: int, i: int)
    requires AllZero(z) && |z| == |d| && 0 <= i < |d|
    ensures BlitWith(d, row, ss, ds, lo, hi, dLo, rows, XOR)[i]
      == d[i] ^ BlitWith(z, row, ss, ds, lo, hi, dLo, rows, XOR)[i]
    decreases rows
  {
    if rows > 0 {
      var line := row(lo, hi);
      var cd, cz := CombineInto(d, dLo, line, XOR), CombineInto(z, dLo, line, XOR);
      var mask := BlitWith(z, row, ss, ds, lo + ss, hi + ss, dLo + ds, rows - 1, XOR);
      BlitWithXorMask(cd, z, row, ss, ds, lo + ss, hi + ss, dLo + ds, rows - 1, i);
      BlitWithXorMask(cz, z, row, ss, ds, lo + ss, hi + ss, dLo + ds, rows - 1, i);
      CombineIntoXor(d, z, dLo, line, i);
      XorAssoc(d[i], cz[i], mask[i]);
    }
  }

  /** XOR-blitting the same source at the same place twice restores the destination. */
  lemma BlitXorTwice(d: seq<bv8>, src: seq<bv8>, ss: int, ds: int, lo: int, hi: int, dLo: int, rows: int,
                     m: LineMode)
    ensures BlitLines(BlitLines(d, src, ss, ds, lo, hi, dLo, rows, m, XOR), src, ss, ds, lo, hi, dLo, rows,
                      m, XOR) == d
  {
    var row := RowsOf(src, m);
    var once := BlitLines(d, src, ss, ds, lo, hi, dLo, rows, m, XOR);
    var twice := BlitLines(once, src, ss, ds, lo, hi, dLo, rows, m, XOR);
    var z := Zeros(|d|);
    var mask := BlitWith(z, row, ss, ds, lo, hi, dLo, rows, XOR);
    forall i | 0 <= i < |d|
      ensures twice[i] == d[i]
    {
      BlitLinesWith(d, src, ss, ds, lo, hi, dLo, rows, m, XOR, i);
      BlitLinesWith(once, src, ss, ds, lo, hi, dLo, rows, m, XOR, i);
      BlitWithXorMask(d, z, row, ss, ds, lo, hi, dLo, rows, i);
      BlitWithXorMask(once, z, row, ss, ds, lo, hi, dLo, rows, i);
      XorAssoc(d[i], mask[i], mask[i]);
    }
  }

  /** A bitmap as a value: its size, row stride and bytes. */
  datatype Image = Image(width: int, height: int, stride: int, bytes: seq<bv8>)

  ghost function ImageOf(b: Bitmap): Image
    reads b.bitmap
  {
    Image(b.width, b.height, b.rowStride, b.bitmap[..])
  }

  /** The patterns as values. */
  ghost function ImagesOf(bitmaps: seq<Bitmap>): (r: seq<Image>)
    reads set i | 0 <= i < |bitmaps| :: bitmaps[i].bitmap
    ensures |r| == |bitmaps| && forall i :: 0 <= i < |r| ==> r[i] == ImageOf(bitmaps[i])
    decreases |bitmaps|
  {
    if |bitmaps| == 0 then []
    else ImagesOf(bitmaps[..|bitmaps| - 1]) + [ImageOf(bitmaps[|bitmaps| - 1])]
  }

  /**
   * `blit(src, dst, x, y, op)` on a destination held as bytes: the bytes
   * `Blit` leaves, or `None` where it fails.
   */
  function BlitImage(d: seq<bv8>, dw: int, dh: int, ds: int, src: Image, x: int, y: int,
                     op: CombinationOperator): (r: Option<seq<bv8>>)
    ensures r.Some? ==> |r.value| == |d|
  {
    var p := PlanAsWritten(src.width, src.height, src.stride, dw, dh, ds, x, y);
    if PlanFits(p, |src.bytes|, |d|, src.stride, ds) then
      Some(BlitLines(d, src.bytes, src.stride, ds, p.srcStartIdx, p.srcEndIdx, p.dstStartIdx,
                     p.lastLine - p.startLine, ModeOf(p), op))
    else None
  }

  /** Every pattern is a valid bitmap with a buffer of its own, apart from the region's. */
  ghost predicate SourcesFit(ps: seq<Bitmap>, region: Bitmap)
  {
    forall i :: 0 <= i < |ps| ==> ps[i].Valid() && ps[i].bitmap != region.bitmap
  }

  /**
   * A fresh `new Bitmap(w, h)` region, filled with 0xff when `fill` holds
   * (a default pixel of 1); its buffer is apart from those of `sources`.
   */
  method NewRegion(w: int, h: int, fill: bool, sources: seq<Bitmap>) returns (region: Bitmap)
    requires 0 <= h * RowStride(w)
    requires forall i :: 0 <= i < |sources| ==> sources[i].Valid()
    ensures fresh(region) && fresh(region.bitmap) && region.Valid() && region.width == w && region.height == h
    ensures region.bitmap[..] == InitialRegion(h * RowStride(w), fill)
    ensures SourcesFit(sources, region)
  {
    region := new Bitmap(w, h);
    if fill {
      region.FillBitmap(0xff);
    }
    assert region.bitmap[..] == InitialRegion(h * RowStride(w), fill);
  }
}
