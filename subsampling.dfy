/**
 * `Bitmaps.subsample`, `subsampleX` and `subsampleY`: a destination bitmap
 * whose pixel (x, y) is the source pixel (xOffset + x * xStep,
 * yOffset + y * yStep).  The three Java methods run the same nested loop
 * with different steps (`subsampleX` keeps every row, `subsampleY` every
 * column); here that loop is `SampleInto`, and each method allocates its
 * destination as the Java code does.
 *
 * `getPixel` throws when the byte it addresses lies outside the source
 * buffer.  The destination is local to the call, so such a throw loses it
 * entirely: the model answers `Fail(IndexOutOfBounds)`.
 */
module Subsampling {
  import opened BitUtil
  import opened Bits
  import opened PackedBitmap

  /** Sampling steps and offsets, as an `ImageReadParam` holds them. */
  datatype Sampling = Sampling(xStep: int, xOffset: int, yStep: int, yOffset: int)

  /** The source column (or row) `offset + i * step` sampled for destination column `i`. */
  function SampleCoord(offset: int, step: int, i: int): int
  {
    offset + i * step
  }

  lemma SampleCoordStep(offset: int, step: int, i: int)
    ensures SampleCoord(offset, step, i + 1) == SampleCoord(offset, step, i) + step
  {
  }

  /** The source byte read for destination pixel (a, b). */
  function SampleIndex(stride: int, s: Sampling, a: int, b: int): int
  {
    ByteIndex(stride, SampleCoord(s.xOffset, s.xStep, a), SampleCoord(s.yOffset, s.yStep, b))
  }

  /** Every source byte read for a `w` x `h` destination lies in a buffer of `len` bytes. */
  predicate ReadsInRange(len: int, stride: int, w: int, h: int, s: Sampling)
  {
    forall a, b :: 0 <= a < w && 0 <= b < h ==> 0 <= SampleIndex(stride, s, a, b) < len
  }

  /** The source pixel that destination pixel (a, b) receives. */
  function Sampled(src: seq<bv8>, stride: int, s: Sampling, a: int, b: int): bv8
    requires 0 <= SampleIndex(stride, s, a, b) < |src|
  {
    PixelOf(src, stride, SampleCoord(s.xOffset, s.xStep, a), SampleCoord(s.yOffset, s.yStep, b))
  }

  /** Destination pixel (a, b) comes before (x, y) in the loop's row-major order. */
  predicate Before(a: int, b: int, x: int, y: int)
  {
    b < y || (b == y && a < x)
  }

  /**
   * The state of the loop before it visits (x, y): every pixel visited so far
   * was read from inside the source buffer, and each grid pixel of the
   * destination is its sampled source pixel when visited and 0 otherwise
   * (pad bits included).
   */
  predicate SampledUpTo(dst: seq<bv8>, ds: int, h: int, w: int, src: seq<bv8>, stride: int,
                        s: Sampling, x: int, y: int)
  {
    |dst| == h * ds
    && (forall a, b :: 0 <= a < w && 0 <= b < h && Before(a, b, x, y) ==>
          0 <= SampleIndex(stride, s, a, b) < |src|)
    && (forall a, b :: 0 <= a < 8 * ds && 0 <= b < h ==>
          GridPixel(dst, ds, h, a, b)
          == if a < w && Before(a, b, x, y) then Sampled(src, stride, s, a, b) else 0)
  }

  /** A `w` x `h` bitmap whose pixels are sampled from `src` and whose pad bits are 0. */
  ghost predicate SampledBitmap(dst: Bitmap, w: int, h: int, src: seq<bv8>, stride: int, s: Sampling)
    reads dst.bitmap
  {
    dst.Valid() && dst.width == w && dst.height == h
    && SampledUpTo(dst.bitmap[..], dst.rowStride, h, w, src, stride, s, 0, h)
  }

  /** Visiting (x, y) sets the destination pixel exactly when the sampled source pixel is 1. */
  lemma SampleStep(dst: seq<bv8>, next: seq<bv8>, ds: int, h: int, w: int, src: seq<bv8>,
                   stride: int, s: Sampling, x: int, y: int)
    requires SampledUpTo(dst, ds, h, w, src, stride, s, x, y)
    requires 0 <= x < w <= 8 * ds && 0 <= y < h
    requires 0 <= SampleIndex(stride, s, x, y) < |src|
    requires next == if Sampled(src, stride, s, x, y) == 1 then WithPixelSet(dst, ds, h, x, y) else dst
    ensures SampledUpTo(next, ds, h, w, src, stride, s, x + 1, y)
  {
    var p := Sampled(src, stride, s, x, y);
    BitAtBinary(src[SampleIndex(stride, s, x, y)], Offset(SampleCoord(s.xOffset, s.xStep, x)));
    forall a, b | 0 <= a < 8 * ds && 0 <= b < h
      ensures GridPixel(next, ds, h, a, b)
        == if a < w && Before(a, b, x + 1, y) then Sampled(src, stride, s, a, b) else 0
    {
      if p == 1 {
        WithPixelSetPixels(dst, ds, h, x, y, a, b);
      }
    }
  }

  /** The loop moves to the next row. */
  lemma SampleRow(dst: seq<bv8>, ds: int, h: int, w: int, src: seq<bv8>, stride: int,
                  s: Sampling, x: int, y: int)
    requires SampledUpTo(dst, ds, h, w, src, stride, s, x, y)
    requires 0 <= x && w <= x
    ensures SampledUpTo(dst, ds, h, w, src, stride, s, 0, y + 1)
  {
    assert forall a, b :: 0 <= a < w && Before(a, b, 0, y + 1) ==> Before(a, b, x, y);
  }

  /** Before the loop nothing has been visited, and an all-zero raster has all pixels 0. */
  lemma SampleStart(dst: seq<bv8>, ds: int, h: int, w: int, src: seq<bv8>, stride: int, s: Sampling)
    requires |dst| == h * ds && forall i :: 0 <= i < |dst| ==> dst[i] == 0
    ensures SampledUpTo(dst, ds, h, w, src, stride, s, 0, 0)
  {
    forall a, b | 0 <= a < 8 * ds && 0 <= b < h
      ensures GridPixel(dst, ds, h, a, b) == 0
    {
      ByteIndexInGrid(ds, h, a, b);
    }
  }

  /**
   * The loop shared by the three methods: for each destination row `yDst`
   * and column `xDst`, read source pixel (xSrc, ySrc) and set the destination
   * pixel when it is 1.  The answer is false exactly when some read falls
   * outside the source buffer (where `getPixel` throws); otherwise every
   * destination pixel is its sampled source pixel and every pad bit is 0.
   */
  method SampleInto(src: Bitmap, dst: Bitmap, s: Sampling) returns (ok: bool)
    requires src.Valid() && dst.Valid() && src.bitmap != dst.bitmap
    requires forall i :: 0 <= i < dst.bitmap.Length ==> dst.bitmap[i] == 0
    modifies dst.bitmap
    ensures ok <==> ReadsInRange(src.bitmap.Length, src.rowStride, dst.width, dst.height, s)
    ensures ok ==> SampledUpTo(dst.bitmap[..], dst.rowStride, dst.height, dst.width,
                               src.bitmap[..], src.rowStride, s, 0, dst.height)
  {
    var sb, ss := src.bitmap[..], src.rowStride;
    var w, h, ds := dst.width, dst.height, dst.rowStride;
    SampleStart(dst.bitmap[..], ds, h, w, sb, ss, s);
    var yDst, ySrc := 0, s.yOffset;
    while yDst < h
      invariant 0 <= yDst && (h >= 0 ==> yDst <= h)
      invariant ySrc == SampleCoord(s.yOffset, s.yStep, yDst)
      invariant src.bitmap[..] == sb
      invariant SampledUpTo(dst.bitmap[..], ds, h, w, sb, ss, s, 0, yDst)
    {
      var xDst, xSrc := 0, s.xOffset;
      while xDst < w
        invariant 0 <= xDst && (w >= 0 ==> xDst <= w)
        invariant xSrc == SampleCoord(s.xOffset, s.xStep, xDst)
        invariant src.bitmap[..] == sb
        invariant SampledUpTo(dst.bitmap[..], ds, h, w, sb, ss, s, xDst, yDst)
      {
        var index := src.GetByteIndex(xSrc, ySrc);
        if !(0 <= index < src.bitmap.Length) {
          assert !(0 <= SampleIndex(ss, s, xDst, yDst) < src.bitmap.Length);
          return false;
        }
        var pixel := src.GetPixel(xSrc, ySrc);
        assert pixel == Sampled(sb, ss, s, xDst, yDst);
        ghost var before := dst.bitmap[..];
        if pixel != 0 {
          ByteIndexInGrid(ds, h, xDst, yDst);
          dst.SetPixel(xDst, yDst, pixel);
        }
        SampleStep(before, dst.bitmap[..], ds, h, w, sb, ss, s, xDst, yDst);
        SampleCoordStep(s.xOffset, s.xStep, xDst);
        xDst, xSrc := xDst + 1, xSrc + s.xStep;
      }
      SampleRow(dst.bitmap[..], ds, h, w, sb, ss, s, xDst, yDst);
      SampleCoordStep(s.yOffset, s.yStep, yDst);
      yDst, ySrc := yDst + 1, ySrc + s.yStep;
    }
    ok := true;
  }

  /**
   * A destination of `n` positions sampled from `offset` by `step` stays
   * within `limit` when `n * step <= limit - offset`.
   */
  lemma CoordBelow(offset: int, step: int, a: int, n: int, limit: int)
    requires 0 <= offset && 1 <= step && 0 <= a < n && n * step <= limit - offset
    ensures 0 <= SampleCoord(offset, step, a) < limit
  {
    MulMonotone(a + 1, n, step);
  }

  /**
   * Destination sizes `(w - xOffset) / xStep` by `(h - yOffset) / yStep`
   * (truncating division) read only source pixels of the bitmap, so the
   * reads stay in its buffer.
   */
  lemma SizedReadsInRange(w: int, h: int, stride: int, len: int, s: Sampling, dw: int, dh: int)
    requires stride == RowStride(w) && len == h * stride
    requires 1 <= s.xStep && 1 <= s.yStep && 0 <= s.xOffset && 0 <= s.yOffset
    requires dw <= JavaDiv(w - s.xOffset, s.xStep) && dh <= JavaDiv(h - s.yOffset, s.yStep)
    ensures ReadsInRange(len, stride, dw, dh, s)
  {
    forall a, b | 0 <= a < dw && 0 <= b < dh
      ensures 0 <= SampleIndex(stride, s, a, b) < len
    {
      var qx, qy := JavaDiv(w - s.xOffset, s.xStep), JavaDiv(h - s.yOffset, s.yStep);
      assert 0 <= w - s.xOffset && 0 <= h - s.yOffset;
      MulMonotone(dw, qx, s.xStep);
      MulMonotone(dh, qy, s.yStep);
      CoordBelow(s.xOffset, s.xStep, a, dw, w);
      CoordBelow(s.yOffset, s.yStep, b, dh, h);
      ByteIndexInGrid(stride, h, SampleCoord(s.xOffset, s.xStep, a), SampleCoord(s.yOffset, s.yStep, b));
    }
  }

  /** The destination `new Bitmap(w, h)`, or the exception its allocation raises. */
  method Allocate(w: int, h: int) returns (r: Result<Bitmap>)
    ensures h * RowStride(w) < 0 ==> r == Fail(NegativeSize)
    ensures 0 <= h * RowStride(w) ==>
      (r.Ok? && r.value.Valid() && fresh(r.value.bitmap) && r.value.width == w && r.value.height == h
       && forall i :: 0 <= i < r.value.bitmap.Length ==> r.value.bitmap[i] == 0)
  {
    if h * RowStride(w) < 0 {
      return Fail(NegativeSize);
    }
    var b := new Bitmap(w, h);
    return Ok(b);
  }

  /**
   * Allocates a `w` x `h` destination and samples `src` into it: the
   * allocation's exception, the read's exception, or the sampled bitmap.
   */
  method SampleNew(src: Bitmap, w: int, h: int, s: Sampling) returns (r: Result<Bitmap>)
    requires src.Valid()
    ensures h * RowStride(w) < 0 ==> r == Fail(NegativeSize)
    ensures 0 <= h * RowStride(w) && !ReadsInRange(src.bitmap.Length, src.rowStride, w, h, s)
      ==> r == Fail(IndexOutOfBounds)
    ensures 0 <= h * RowStride(w) && ReadsInRange(src.bitmap.Length, src.rowStride, w, h, s) ==>
      r.Ok? && fresh(r.value.bitmap) && SampledBitmap(r.value, w, h, src.bitmap[..], src.rowStride, s)
  {
    r := Allocate(w, h);
    if r.Ok? {
      var dst := r.value;
      var ok := SampleInto(src, dst, s);
      if !ok {
        r := Fail(IndexOutOfBounds);
      }
    }
  }

  /**
   * `subsample(src, param)`: a `(w - xOffset) / xStep` by
   * `(h - yOffset) / yStep` bitmap (truncating division) of sampled pixels.
   * `ImageReadParam` keeps each step at least 1 and each offset in
   * `0 .. step - 1`; under those bounds every read lies inside the source.
   */
  method Subsample(src: Bitmap?, s: Sampling) returns (r: Result<Bitmap>)
    requires src != null ==> src.Valid()
    requires 1 <= s.xStep && 0 <= s.xOffset < s.xStep
    requires 1 <= s.yStep && 0 <= s.yOffset < s.yStep
    ensures src == null ==> r == Fail(IllegalArgument)
    ensures src != null ==>
      var w, h := JavaDiv(src.width - s.xOffset, s.xStep), JavaDiv(src.height - s.yOffset, s.yStep);
      if h * RowStride(w) < 0 then r == Fail(NegativeSize)
      else r.Ok? && fresh(r.value.bitmap) && SampledBitmap(r.value, w, h, src.bitmap[..], src.rowStride, s)
  {
    if src == null {
      return Fail(IllegalArgument);
    }
    var w := JavaDiv(src.width - s.xOffset, s.xStep);
    var h := JavaDiv(src.height - s.yOffset, s.yStep);
    SizedReadsInRange(src.width, src.height, src.rowStride, src.bitmap.Length, s, w, h);
    r := SampleNew(src, w, h, s);
  }

  /** A sampled destination pixel, read through the loop's final state. */
  lemma SampledPixel(dst: seq<bv8>, ds: int, h: int, w: int, src: seq<bv8>, stride: int,
                     s: Sampling, a: int, b: int)
    requires SampledUpTo(dst, ds, h, w, src, stride, s, 0, h)
    requires 0 <= a < w <= 8 * ds && 0 <= b < h
    ensures 0 <= SampleIndex(stride, s, a, b) < |src|
    ensures GridPixel(dst, ds, h, a, b) == Sampled(src, stride, s, a, b)
    ensures Sampled(src, stride, s, a, b)
      == PixelOf(src, stride, s.xOffset + a * s.xStep, s.yOffset + b * s.yStep)
  {
  }

  /** The sizes `subsampleX` allocates: the source width, and a height computed from the width. */
  function SubsampleXShape(w: int, h: int, xStep: int, xOffset: int): (int, int)
    requires 1 <= xStep
  {
    (w, JavaDiv(w - xOffset, xStep))
  }

  /** The sizes `subsampleY` allocates: a width computed from the width, and the source height. */
  function SubsampleYShape(w: int, h: int, yStep: int, yOffset: int): (int, int)
    requires 1 <= yStep
  {
    (JavaDiv(w - yOffset, yStep), h)
  }

  /** Every column sampled by `xStep` from `xOffset`, every row: the sizes a horizontal sampling needs. */
  function SubsampleXIntendedShape(w: int, h: int, xStep: int, xOffset: int): (int, int)
    requires 1 <= xStep
  {
    (JavaDiv(w - xOffset, xStep), h)
  }

  /** Every column, every row sampled by `yStep` from `yOffset`. */
  function SubsampleYIntendedShape(w: int, h: int, yStep: int, yOffset: int): (int, int)
    requires 1 <= yStep
  {
    (w, JavaDiv(h - yOffset, yStep))
  }

  /**
   * `subsampleX(src, xStep, xOffset)` as written: the destination is
   * allocated with `SubsampleXShape`, so its width is the source's and its
   * height the sampled width; rows are read at `yDst` directly.
   */
  method SubsampleX(src: Bitmap?, xStep: int, xOffset: int) returns (r: Result<Bitmap>)
    requires src != null ==> src.Valid()
    requires 1 <= xStep
    ensures src == null ==> r == Fail(IllegalArgument)
    ensures src != null ==>
      var (w, h) := SubsampleXShape(src.width, src.height, xStep, xOffset);
      var s := Sampling(xStep, xOffset, 1, 0);
      if h * RowStride(w) < 0 then r == Fail(NegativeSize)
      else if !ReadsInRange(src.bitmap.Length, src.rowStride, w, h, s) then r == Fail(IndexOutOfBounds)
      else r.Ok? && fresh(r.value.bitmap) && SampledBitmap(r.value, w, h, src.bitmap[..], src.rowStride, s)
  {
    if src == null {
      return Fail(IllegalArgument);
    }
    var (w, h) := SubsampleXShape(src.width, src.height, xStep, xOffset);
    r := SampleNew(src, w, h, Sampling(xStep, xOffset, 1, 0));
  }

  /**
   * `subsampleY(src, yStep, yOffset)` as written: the width is computed from
   * the source width with the row step, the height is the source's.
   */
  method SubsampleY(src: Bitmap?, yStep: int, yOffset: int) returns (r: Result<Bitmap>)
    requires src != null ==> src.Valid()
    requires 1 <= yStep
    ensures src == null ==> r == Fail(IllegalArgument)
    ensures src != null ==>
      var (w, h) := SubsampleYShape(src.width, src.height, yStep, yOffset);
      var s := Sampling(1, 0, yStep, yOffset);
      if h * RowStride(w) < 0 then r == Fail(NegativeSize)
      else if !ReadsInRange(src.bitmap.Length, src.rowStride, w, h, s) then r == Fail(IndexOutOfBounds)
      else r.Ok? && fresh(r.value.bitmap) && SampledBitmap(r.value, w, h, src.bitmap[..], src.rowStride, s)
  {
    if src == null {
      return Fail(IllegalArgument);
    }
    var (w, h) := SubsampleYShape(src.width, src.height, yStep, yOffset);
    r := SampleNew(src, w, h, Sampling(1, 0, yStep, yOffset));
  }

  /**
   * A 16 x 1 source sampled by `subsampleX` with step 2: the destination is
   * 16 x 8 and row 1 of it reads byte 2 of a 2-byte buffer, so the call
   * throws; the intended 8 x 1 destination reads only inside the buffer.
   */
  lemma SubsampleXSwapsShape()
    ensures SubsampleXShape(16, 1, 2, 0) == (16, 8)
    ensures !ReadsInRange(2, 2, 16, 8, Sampling(2, 0, 1, 0))
    ensures SubsampleXIntendedShape(16, 1, 2, 0) == (8, 1)
    ensures ReadsInRange(2, 2, 8, 1, Sampling(2, 0, 1, 0))
  {
    assert SampleIndex(2, Sampling(2, 0, 1, 0), 0, 1) == 2;
    SizedReadsInRange(16, 1, 2, 2, Sampling(2, 0, 1, 0), 8, 1);
  }

  /**
   * A 1 x 16 source sampled by `subsampleY` with step 2: the destination is
   * 0 x 16, with no pixel at all, where the intended one is 1 x 8.
   */
  lemma SubsampleYSwapsShape()
    ensures SubsampleYShape(1, 16, 2, 0) == (0, 16)
    ensures SubsampleYIntendedShape(1, 16, 2, 0) == (1, 8)
  {
  }

  /**
   * `subsampleX` with the intended sizes: the sampled width by the source
   * height.  Every read then lies in the source, so only the allocation can fail.
   */
  method SubsampleXIntended(src: Bitmap?, xStep: int, xOffset: int) returns (r: Result<Bitmap>)
    requires src != null ==> src.Valid()
    requires 1 <= xStep && 0 <= xOffset
    ensures src == null ==> r == Fail(IllegalArgument)
    ensures src != null ==>
      var (w, h) := SubsampleXIntendedShape(src.width, src.height, xStep, xOffset);
      var s := Sampling(xStep, xOffset, 1, 0);
      if h * RowStride(w) < 0 then r == Fail(NegativeSize)
      else r.Ok? && fresh(r.value.bitmap) && SampledBitmap(r.value, w, h, src.bitmap[..], src.rowStride, s)
  {
    if src == null {
      return Fail(IllegalArgument);
    }
    var (w, h) := SubsampleXIntendedShape(src.width, src.height, xStep, xOffset);
    var s := Sampling(xStep, xOffset, 1, 0);
    SizedReadsInRange(src.width, src.height, src.rowStride, src.bitmap.Length, s, w, h);
    r := SampleNew(src, w, h, s);
  }

  /** `subsampleY` with the intended sizes: the source width by the sampled height. */
  method SubsampleYIntended(src: Bitmap?, yStep: int, yOffset: int) returns (r: Result<Bitmap>)
    requires src != null ==> src.Valid()
    requires 1 <= yStep && 0 <= yOffset
    ensures src == null ==> r == Fail(IllegalArgument)
    ensures src != null ==>
      var (w, h) := SubsampleYIntendedShape(src.width, src.height, yStep, yOffset);
      var s := Sampling(1, 0, yStep, yOffset);
      if h * RowStride(w) < 0 then r == Fail(NegativeSize)
      else r.Ok? && fresh(r.value.bitmap) && SampledBitmap(r.value, w, h, src.bitmap[..], src.rowStride, s)
  {
    if src == null {
      return Fail(IllegalArgument);
    }
    var (w, h) := SubsampleYIntendedShape(src.width, src.height, yStep, yOffset);
    var s := Sampling(1, 0, yStep, yOffset);
    SizedReadsInRange(src.width, src.height, src.rowStride, src.bitmap.Length, s, w, h);
    r := SampleNew(src, w, h, s);
  }
}
