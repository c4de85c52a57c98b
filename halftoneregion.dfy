/**
 * The halftone region segment of HalftoneRegion.java (section 6.6.5 and
 * Annex C.5 of ITU-T T.88): the header, the lattice of grid cells, the
 * HSKIP mask, the gray-scale planes (decoded most significant first and
 * turned from Gray code to binary by XOR), the gray values they spell, and
 * the rendering that blits one pattern per grid cell.
 *
 * The generic region decoder that produces each gray-scale plane, the
 * region segment information field and the pattern dictionaries are other
 * objects; their results enter as parameters.
 */
module Halftone {
  import opened BitUtil
  import opened Bits
  import opened BitStream
  import opened PackedBitmap
  import opened Compositing
  import opened Blitting

  // ---------------------------------------------------------------------------
  // Header

  /** Section 7.4.5.1.2 and 7.4.5.1.3: the grid's size, origin and vector. */
  datatype Grid = Grid(gridWidth: int, gridHeight: int, gridX: int, gridY: int,
                       regionX: int, regionY: int)

  /** The halftone region header after the region segment information field. */
  datatype HalftoneHeader = HalftoneHeader(
    defaultPixel: nat, combinationOperator: CombinationOperator, skipEnabled: bool,
    template: nat, isMMREncoded: bool, grid: Grid, next: nat)

  /**
   * The header that starts at bit `p`: the flags byte (default pixel,
   * three-bit operator code, skip flag, two-bit template, MMR flag), the
   * grid width, height, X and Y as 32-bit `int`s, and the 16-bit vector.
   */
  function HalftoneHeaderAt(bits: seq<bool>, p: nat): (r: Option<HalftoneHeader>)
    ensures r.Some? <==> p + 168 <= |bits|
    ensures r.Some? ==>
      && r.value.defaultPixel <= 1 && r.value.template < 4 && r.value.next == p + 168
      && IsInt32(r.value.grid.gridWidth) && IsInt32(r.value.grid.gridHeight)
      && IsInt32(r.value.grid.gridX) && IsInt32(r.value.grid.gridY)
      && 0 <= r.value.grid.regionX < 0x1_0000 && 0 <= r.value.grid.regionY < 0x1_0000
  {
    if p + 168 <= |bits| then
      Pow2Of8();
      Pow2Add(8, 8);
      Some(HalftoneHeader(
        Flag(bits[p]), OperatorFromCode(FieldAt(bits, p + 1, 3)), bits[p + 4], TwoBits(bits, p + 5),
        bits[p + 7],
        Grid(Int32(WordAt(bits, p + 8)), Int32(WordAt(bits, p + 40)), Int32(WordAt(bits, p + 72)),
             Int32(WordAt(bits, p + 104)), FieldAt(bits, p + 136, 16), FieldAt(bits, p + 152, 16)),
        p + 168))
    else
      None
  }

  // ---------------------------------------------------------------------------
  // Lattice geometry

  /** `x >> 8` on an `int`: an arithmetic shift, the floor of `x / 256`. */
  function Shr8(x: int): (r: int)
    requires IsInt32(x)
    ensures 256 * r <= x < 256 * r + 256
    ensures -0x80_0000 <= r < 0x80_0000
  {
    x / 256
  }

  /** The floor is the only value the shift's bounds allow. */
  lemma Shr8Unique(x: int, r: int)
    requires IsInt32(x) && 256 * r <= x < 256 * r + 256
    ensures r == Shr8(x)
  {
  }

  /** `computeX(m, n)`: `(HGX + m * HRY + n * HRX) >> 8` in 32-bit arithmetic. */
  function ComputeX(g: Grid, m: int, n: int): int
  {
    Shr8(Wrap32(g.gridX + m * g.regionY + n * g.regionX))
  }

  /** `computeY(m, n)`: `(HGY + m * HRX - n * HRY) >> 8` in 32-bit arithmetic. */
  function ComputeY(g: Grid, m: int, n: int): int
  {
    Shr8(Wrap32(g.gridY + m * g.regionX - n * g.regionY))
  }

  /**
   * Where no 32-bit overflow happens, the cell's corner is the floor of the
   * lattice point divided by 256: the grid is in units of 1/256 pixel.
   */
  lemma ComputeXYExact(g: Grid, m: int, n: int)
    requires IsInt32(g.gridX + m * g.regionY + n * g.regionX)
    requires IsInt32(g.gridY + m * g.regionX - n * g.regionY)
    ensures 256 * ComputeX(g, m, n) <= g.gridX + m * g.regionY + n * g.regionX
              < 256 * ComputeX(g, m, n) + 256
    ensures 256 * ComputeY(g, m, n) <= g.gridY + m * g.regionX - n * g.regionY
              < 256 * ComputeY(g, m, n) + 256
  {
  }

  /** The cell corners lie within 2^23 pixels of the origin whatever the grid. */
  lemma ComputeXYBounds(g: Grid, m: int, n: int)
    ensures -0x80_0000 <= ComputeX(g, m, n) < 0x80_0000
    ensures -0x80_0000 <= ComputeY(g, m, n) < 0x80_0000
  {
  }

  /**
   * A grid origin that moves by whole pixels (multiples of 256) moves every
   * cell corner by the same number of pixels.
   */
  lemma {:induction false} ComputeXShift(g: Grid, m: int, n: int, k: int)
    requires IsInt32(g.gridX + m * g.regionY + n * g.regionX)
    requires IsInt32(g.gridX + 256 * k + m * g.regionY + n * g.regionX)
    ensures ComputeX(g.(gridX := g.gridX + 256 * k), m, n) == ComputeX(g, m, n) + k
  {
    var s := g.gridX + m * g.regionY + n * g.regionX;
    var r := ComputeX(g, m, n);
    assert 256 * (r + k) <= s + 256 * k < 256 * (r + k) + 256;
    Shr8Unique(s + 256 * k, r + k);
  }

  // ---------------------------------------------------------------------------
  // HSKIP (section 6.6.5.1)

  /**
   * Whether grid cell (m, n) is skipped: a pattern of `pw` x `ph` pixels at
   * the cell's corner would lie wholly outside the `hbw` x `hbh` region.
   */
  predicate Skipped(g: Grid, m: int, n: int, pw: int, ph: int, hbw: int, hbh: int)
  {
    var x, y := ComputeX(g, m, n), ComputeY(g, m, n);
    x + pw <= 0 || x >= hbw || y + ph <= 0 || y >= hbh
  }

  /** The HSKIP value of mask position (n, m), pad columns included. */
  function SkipPixel(g: Grid, m: int, n: int, pw: int, ph: int, hbw: int, hbh: int): bv8
  {
    if n < g.gridWidth && Skipped(g, m, n, pw, ph, hbw, hbh) then 1 else 0
  }

  /** A pattern placed on a skipped cell has no pixel inside the region. */
  lemma SkippedCellOutside(g: Grid, m: int, n: int, pw: int, ph: int, hbw: int, hbh: int,
                           a: int, b: int)
    requires Skipped(g, m, n, pw, ph, hbw, hbh)
    requires 0 <= a < pw && 0 <= b < ph
    ensures var x, y := ComputeX(g, m, n) + a, ComputeY(g, m, n) + b;
      !(0 <= x < hbw && 0 <= y < hbh)
  {
  }

  /**
   * A cell that is not skipped has a pixel of its (non-empty) pattern inside
   * a non-empty region: the pattern pixel that lands nearest the region's
   * top left corner.
   */
  lemma KeptCellInside(g: Grid, m: int, n: int, pw: int, ph: int, hbw: int, hbh: int)
    requires !Skipped(g, m, n, pw, ph, hbw, hbh) && 0 < pw && 0 < ph && 0 < hbw && 0 < hbh
    ensures var x, y := ComputeX(g, m, n), ComputeY(g, m, n);
      var a, b := (if x >= 0 then 0 else -x), (if y >= 0 then 0 else -y);
      0 <= a < pw && 0 <= b < ph && 0 <= x + a < hbw && 0 <= y + b < hbh
  {
  }

  // ---------------------------------------------------------------------------
  // Patterns of the referred-to dictionaries

  /** The dictionaries' patterns one after another, in the order of the dictionaries. */
  function Concatenated(dictionaries: seq<seq<Bitmap>>): (r: seq<Bitmap>)
    ensures |r| == TotalSize(dictionaries)
    decreases |dictionaries|
  {
    if |dictionaries| == 0 then []
    else Concatenated(dictionaries[..|dictionaries| - 1]) + dictionaries[|dictionaries| - 1]
  }

  /** The total number of patterns. */
  function TotalSize(dictionaries: seq<seq<Bitmap>>): nat
    decreases |dictionaries|
  {
    if |dictionaries| == 0 then 0
    else TotalSize(dictionaries[..|dictionaries| - 1]) + |dictionaries[|dictionaries| - 1]|
  }

  /**
   * The pattern lists of the referred-to segments, read one after another:
   * `ds[i]` is what segment `i`'s `getDictionary` returns, or the exception
   * it (or the cast to `PatternDictionary`) raises.  The first failure is
   * the outcome.
   */
  function Collected(ds: seq<Result<seq<Bitmap>>>): (r: Result<seq<seq<Bitmap>>>)
    ensures r.Ok? <==> forall i :: 0 <= i < |ds| ==> ds[i].Ok?
    ensures r.Ok? ==> |r.value| == |ds| && forall i :: 0 <= i < |ds| ==> ds[i] == Ok(r.value[i])
    ensures r.Fail? ==> exists i :: 0 <= i < |ds| && ds[i] == Fail(r.error) && forall j :: 0 <= j < i ==> ds[j].Ok?
    decreases |ds|
  {
    if |ds| == 0 then Ok([])
    else
      var last := |ds| - 1;
      var init := Collected(ds[..last]);
      assert forall i :: 0 <= i < last ==> ds[..last][i] == ds[i];
      if init.Fail? then Fail(init.error)
      else if ds[last].Fail? then Fail(ds[last].error)
      else Ok(init.value + [ds[last].value])
  }

  /** Once a prefix of the dictionaries fails, so does the whole run, with the same error. */
  lemma {:induction false} CollectedFailureStays(ds: seq<Result<seq<Bitmap>>>, i: int)
    requires 0 <= i <= |ds| && Collected(ds[..i]).Fail?
    ensures Collected(ds) == Collected(ds[..i])
    decreases |ds|
  {
    if i < |ds| {
      var init := ds[..|ds| - 1];
      assert init[..i] == ds[..i];
      CollectedFailureStays(init, i);
    } else {
      assert ds[..i] == ds;
    }
  }

  /**
   * Pattern `k` of dictionary `d` is found after the patterns of the
   * dictionaries before it: gray value `TotalSize(dictionaries[..d]) + k`.
   */
  lemma {:induction false} ConcatenatedAt(dictionaries: seq<seq<Bitmap>>, d: int, k: int)
    requires 0 <= d < |dictionaries| && 0 <= k < |dictionaries[d]|
    ensures |Concatenated(dictionaries)| == TotalSize(dictionaries)
    ensures TotalSize(dictionaries[..d]) + k < |Concatenated(dictionaries)|
    ensures Concatenated(dictionaries)[TotalSize(dictionaries[..d]) + k] == dictionaries[d][k]
    decreases |dictionaries|
  {
    var last := |dictionaries| - 1;
    var init := dictionaries[..last];
    ConcatenatedSize(init);
    if d < last {
      assert init[..d] == dictionaries[..d];
      ConcatenatedAt(init, d, k);
    } else {
      assert init == dictionaries[..d];
    }
  }

  lemma {:induction false} ConcatenatedSize(dictionaries: seq<seq<Bitmap>>)
    ensures |Concatenated(dictionaries)| == TotalSize(dictionaries)
    decreases |dictionaries|
  {
    if |dictionaries| > 0 {
      ConcatenatedSize(dictionaries[..|dictionaries| - 1]);
    }
  }

  // ---------------------------------------------------------------------------
  // Gray-scale planes (Annex C.5)

  /**
   * The adaptive-template pixels given to the generic region decoder for
   * the planes: none with MMR coding, otherwise four, the first at x = 3
   * for templates 0 and 1 and at x = 2 for templates 2 and 3.
   */
  function GrayAtPixels(template: nat, isMMREncoded: bool): Option<(seq<int>, seq<int>)>
  {
    if isMMREncoded then None
    else Some(([if template <= 1 then 3 else 2, -3, 2, -2], [-1, -1, -2, -2]))
  }

  /**
   * Every adaptive-template pixel lies in a row above the pixel being
   * decoded, so it is always decoded before it; there are four of them,
   * and only the first depends on the template.
   */
  lemma GrayAtPixelsCausal(template: nat, isMMREncoded: bool)
    ensures GrayAtPixels(template, isMMREncoded).Some? <==> !isMMREncoded
    ensures !isMMREncoded ==>
      var (xs, ys) := GrayAtPixels(template, isMMREncoded).value;
      && |xs| == 4 && |ys| == 4
      && (forall i :: 0 <= i < 4 ==> ys[i] < 0 && -128 <= xs[i] < 128)
      && xs[0] == (if template <= 1 then 3 else 2)
      && xs[1..] == GrayAtPixels(0, false).value.0[1..] && ys == GrayAtPixels(0, false).value.1
  {
  }

  /**
   * The bytes `combineGrayScalePlanes` visits on a `width` x `height`
   * plane: one per started group of eight columns in each row.  For a plane
   * of non-negative size that is its whole buffer.
   */
  function ScanLength(width: int, height: int): (r: int)
    ensures r >= 0
    ensures width >= 0 && height >= 0 ==> r == height * RowStride(width)
  {
    if width > 0 && height > 0 then height * RowStride(width) else 0
  }

  /** The first `n` bytes of `a` XORed with those of `b`; the rest of `a` as it is. */
  function XorBytes(a: seq<bv8>, b: seq<bv8>, n: int): (r: seq<bv8>)
    requires n <= |a| && n <= |b|
    ensures |r| == |a|
  {
    seq(|a|, i requires 0 <= i < |a| => XorByteAt(a, b, n, i))
  }

  function XorByteAt(a: seq<bv8>, b: seq<bv8>, n: int, i: int): bv8
    requires 0 <= i < |a| && n <= |b|
  {
    if i < n then CombineBytes(a[i], b[i], XOR) else a[i]
  }

  /**
   * The planes after the Gray-code step: plane `j` (in plane order, plane 0
   * least significant) XORed with the converted plane above it, the top
   * plane as decoded.
   */
  function Binary(planes: seq<seq<bv8>>, j: int, n: int): (r: seq<bv8>)
    requires 0 <= j < |planes| && 0 <= n
    requires forall k :: 0 <= k < |planes| ==> n <= |planes[k]|
    ensures |r| == |planes[j]|
    decreases |planes| - j
  {
    if j == |planes| - 1 then planes[j]
    else XorBytes(planes[j], Binary(planes, j + 1, n), n)
  }

  /**
   * The Gray-code conversion pixel by pixel: a converted pixel is the XOR
   * of that pixel in its own decoded plane and in every plane above it.
   */
  lemma {:induction false} BinaryPixel(planes: seq<seq<bv8>>, j: int, width: int, height: int,
                                       x: int, y: int)
    requires 0 <= j < |planes| && forall k :: 0 <= k < |planes| ==> |planes[k]| == height * RowStride(width)
    requires 0 <= x < width && 0 <= y < height
    ensures 0 <= ByteIndex(RowStride(width), x, y) < height * RowStride(width)
    ensures PixelOf(Binary(planes, j, ScanLength(width, height)), RowStride(width), x, y)
      == XorOfPixels(planes, j, RowStride(width), x, y)
    decreases |planes| - j
  {
    var stride, n := RowStride(width), ScanLength(width, height);
    ByteIndexInGrid(stride, height, x, y);
    var i := ByteIndex(stride, x, y);
    assert n == height * stride;
    if j < |planes| - 1 {
      var above := Binary(planes, j + 1, n);
      BinaryPixel(planes, j + 1, width, height, x, y);
      assert Binary(planes, j, n) == XorBytes(planes[j], above, n);
      assert Binary(planes, j, n)[i] == XorByteAt(planes[j], above, n, i);
      XorBit(above[i], planes[j][i], Offset(x));
    }
  }


  /** Pixel (x, y) of the decoded planes `j` and above, XORed together. */
  function XorOfPixels(planes: seq<seq<bv8>>, j: int, stride: int, x: int, y: int): bv8
    requires 0 <= j < |planes|
    requires forall k :: 0 <= k < |planes| ==> 0 <= ByteIndex(stride, x, y) < |planes[k]|
    decreases |planes| - j
  {
    if j == |planes| - 1 then PixelOf(planes[j], stride, x, y)
    else PixelOf(planes[j], stride, x, y) ^ XorOfPixels(planes, j + 1, stride, x, y)
  }

  /** The decoded planes in plane order: the decoder delivers plane `|decoded| - 1` first. */
  function PlaneOrder(decoded: seq<seq<bv8>>): (r: seq<seq<bv8>>)
    ensures |r| == |decoded|
    ensures forall k :: 0 <= k < |r| ==> r[k] == decoded[|decoded| - 1 - k]
  {
    seq(|decoded|, k requires 0 <= k < |decoded| => decoded[|decoded| - 1 - k])
  }

  /** The bytes of each bitmap. */
  ghost function Contents(bitmaps: seq<Bitmap>): (r: seq<seq<bv8>>)
    reads set i | 0 <= i < |bitmaps| :: bitmaps[i].bitmap
    ensures |r| == |bitmaps| && forall i :: 0 <= i < |r| ==> r[i] == bitmaps[i].bitmap[..]
    decreases |bitmaps|
  {
    if |bitmaps| == 0 then []
    else Contents(bitmaps[..|bitmaps| - 1]) + [bitmaps[|bitmaps| - 1].bitmap[..]]
  }

  /** Pixel (x, y) of a plane, 0 where the plane has no such byte. */
  function PlanePixel(plane: seq<bv8>, stride: int, x: int, y: int): nat
  {
    if 0 <= ByteIndex(stride, x, y) < |plane| then PixelOf(plane, stride, x, y) as nat else 0
  }

  /** `sum over j < count of pixel(plane j, x, y) * 2^j`: the planes read as binary digits. */
  function GrayValue(planes: seq<seq<bv8>>, stride: int, x: int, y: int, count: nat): nat
    requires count <= |planes|
  {
    if count == 0 then 0
    else GrayValue(planes, stride, x, y, count - 1)
         + PlanePixel(planes[count - 1], stride, x, y) * Pow2(count - 1)
  }

  /** A gray value spelled by `count` planes is below `2^count`. */
  lemma {:induction false} GrayValueBound(planes: seq<seq<bv8>>, stride: int, x: int, y: int,
                                          count: nat)
    requires count <= |planes|
    ensures GrayValue(planes, stride, x, y, count) < Pow2(count)
  {
    if count > 0 {
      GrayValueBound(planes, stride, x, y, count - 1);
      var plane := planes[count - 1];
      if 0 <= ByteIndex(stride, x, y) < |plane| {
        BitAtBinary(plane[ByteIndex(stride, x, y)], Offset(x));
      }
    }
  }

  /**
   * `(getByte(byteIndex) >> (7 - i & 7)) & 1`: Java's `-` binds tighter
   * than `&`, so the shift is `(7 - i) & 7`; the sign extension of the byte
   * only affects bits the mask drops.  It is pixel `i` of the byte.
   */
  function ValueBit(b: bv8, i: int): (r: nat)
    ensures r == BitAt(b, Offset(i)) as nat && r <= 1
  {
    BitAtBinary(b, Offset(i));
    ((b >> (((7 - i) % 8) as bv8)) & 1) as nat
  }

  /**
   * The filled part of the planes array once plane `j` is decoded: planes
   * `j` to `|decoded| - 1`, in plane order.
   */
  function Suffix(decoded: seq<Bitmap>, j: int): (r: seq<Bitmap>)
    requires 0 <= j <= |decoded|
    ensures |r| == |decoded| - j
    decreases |decoded| - j
  {
    if j == |decoded| then [] else [decoded[|decoded| - 1 - j]] + Suffix(decoded, j + 1)
  }

  /** The complete array is the decoded planes in plane order. */
  lemma {:induction false} SuffixAt(decoded: seq<Bitmap>, j: int, i: int)
    requires 0 <= j <= |decoded| && 0 <= i < |decoded| - j
    ensures Suffix(decoded, j)[i] == decoded[|decoded| - 1 - (j + i)]
    decreases i
  {
    if i > 0 { SuffixAt(decoded, j + 1, i - 1); }
  }

  /** The plane array `grayScalePlanes` holds plane `k` at index `k`. */
  lemma SuffixContents(decoded: seq<Bitmap>, g: Grid, q: seq<seq<bv8>>)
    requires PlanesShaped(decoded, g) && |q| == |decoded|
    requires forall k :: 0 <= k < |decoded| ==> decoded[|decoded| - 1 - k].bitmap[..] == q[k]
    ensures Contents(Suffix(decoded, 0)) == q
    ensures PlanesShaped(Suffix(decoded, 0), g)
  {
    forall k | 0 <= k < |decoded|
      ensures Suffix(decoded, 0)[k] == decoded[|decoded| - 1 - k]
    {
      SuffixAt(decoded, 0, k);
    }
  }

  /** Every plane after the Gray-code step. */
  ghost function BinaryPlanes(planes: seq<seq<bv8>>, n: int): (r: seq<seq<bv8>>)
    requires 0 <= n && forall k :: 0 <= k < |planes| ==> n <= |planes[k]|
    ensures |r| == |planes| && forall k :: 0 <= k < |planes| ==> r[k] == Binary(planes, k, n)
  {
    seq(|planes|, k requires 0 <= k < |planes| => Binary(planes, k, n))
  }

  /** A plane below the top one is XORed with the converted plane above it. */
  lemma BinaryPlanesStep(planes: seq<seq<bv8>>, n: int, j: int)
    requires 0 <= n && forall k :: 0 <= k < |planes| ==> n <= |planes[k]|
    requires 0 <= j < |planes| - 1
    ensures BinaryPlanes(planes, n)[j] == XorBytes(planes[j], BinaryPlanes(planes, n)[j + 1], n)
  {
  }

  /**
   * The byte count of an HGW x HGH bitmap; `new Bitmap(HGW, HGH)` throws
   * where it is negative.
   */
  function PlaneBytes(g: Grid): int
  {
    g.gridHeight * RowStride(g.gridWidth)
  }

  /** A run of gray-scale planes, each a valid HGW x HGH bitmap. */
  ghost predicate PlanesShaped(planes: seq<Bitmap>, g: Grid)
  {
    forall i :: 0 <= i < |planes| ==>
      planes[i].Valid() && planes[i].width == g.gridWidth && planes[i].height == g.gridHeight
  }

  /** No two planes share a buffer. */
  ghost predicate PlanesDistinct(planes: seq<Bitmap>)
  {
    forall i, k :: 0 <= i < k < |planes| ==> planes[i].bitmap != planes[k].bitmap
  }

  /**
   * The result of `computeGrayScaleValues` on planes with bytes `planes`:
   * Java's `new int[HGH][HGW]` throws on a negative size; otherwise entry
   * `[y][x]` is the gray value the `count` planes spell at pixel (x, y).
   */
  ghost predicate GrayValuesOf(r: Result<array2<int>>, planes: seq<seq<bv8>>, g: Grid, count: nat)
    reads if r.Ok? then {r.value} else {}
  {
    if g.gridHeight < 0 || g.gridWidth < 0 then r == Fail(NegativeSize)
    else
      && r.Ok? && r.value.Length0 == g.gridHeight && r.value.Length1 == g.gridWidth
      && count <= |planes|
      && forall y, x :: 0 <= y < g.gridHeight && 0 <= x < g.gridWidth ==>
           r.value[y, x] == GrayValue(planes, RowStride(g.gridWidth), x, y, count)
  }

  /** The byte count after row `y` stays within a buffer of `height` rows. */
  lemma ByteIndexRows(y: int, height: int, cols: int, len: int)
    requires 0 <= y < height && 0 <= cols && height * cols <= len
    ensures (y + 1) * cols <= len
  {
    MulMonotone(y + 1, height, cols);
  }

  /** Byte i of the combined plane: XORed below n, kept from n on. */
  lemma XorBytesAt(a: seq<bv8>, b: seq<bv8>, n: int, i: int)
    requires n <= |a| && n <= |b| && 0 <= i < |a|
    ensures XorBytes(a, b, n)[i] == if i < n then a[i] ^ b[i] else a[i]
  {
  }

  lemma XorBytesStep(a: seq<bv8>, b: seq<bv8>, n: int)
    requires 0 <= n < |a| && n < |b|
    ensures XorBytes(a, b, n)[n := CombineBytes(a[n], b[n], XOR)] == XorBytes(a, b, n + 1)
  {
  }

  lemma XorBytesNone(a: seq<bv8>, b: seq<bv8>)
    requires |a| <= |b|
    ensures XorBytes(a, b, 0) == a
  {
  }

  // ---------------------------------------------------------------------------
  // Rendering (section 6.6.5.2)

  /** What is rendered: the grid, the patterns, the region's size and stride, and the operator. */
  datatype RenderJob = RenderJob(grid: Grid, patterns: seq<Image>, dw: int, dh: int, ds: int,
                                 op: CombinationOperator)

  /** A table of one gray value per grid cell, HGH rows of HGW. */
  ghost predicate CellsShaped(cells: seq<seq<int>>, g: Grid)
  {
    0 <= g.gridHeight && 0 <= g.gridWidth && |cells| == g.gridHeight
    && forall m :: 0 <= m < |cells| ==> |cells[m]| == g.gridWidth
  }

  /**
   * The region's bytes after rendering cells (m, n) onward in row-major
   * order, starting from `d`: each cell blits the pattern its gray value
   * selects at the cell's corner.  `None` where a gray value selects no
   * pattern or a blit fails.
   */
  function RenderFrom(d: seq<bv8>, job: RenderJob, cells: seq<seq<int>>, m: int, n: int)
    : (r: Option<seq<bv8>>)
    requires CellsShaped(cells, job.grid) && 0 <= m && 0 <= n
    ensures r.Some? ==> |r.value| == |d|
    decreases job.grid.gridHeight - m, job.grid.gridWidth - n
  {
    if m >= job.grid.gridHeight then Some(d)
    else if n >= job.grid.gridWidth then RenderFrom(d, job, cells, m + 1, 0)
    else
      var v := cells[m][n];
      if !(0 <= v < |job.patterns|) then None
      else
        match BlitImage(d, job.dw, job.dh, job.ds, job.patterns[v], ComputeX(job.grid, m, n),
                        ComputeY(job.grid, m, n), job.op)
        case None => None
        case Some(d') => RenderFrom(d', job, cells, m, n + 1)
  }

  /** One cell of the rendering: the blit of the pattern its gray value selects, then the next cell. */
  lemma RenderFromCell(d: seq<bv8>, job: RenderJob, cells: seq<seq<int>>, m: int, n: int)
    requires CellsShaped(cells, job.grid) && 0 <= m < job.grid.gridHeight && 0 <= n < job.grid.gridWidth
    requires 0 <= cells[m][n] < |job.patterns|
    ensures var blitted := BlitImage(d, job.dw, job.dh, job.ds, job.patterns[cells[m][n]],
                                     ComputeX(job.grid, m, n), ComputeY(job.grid, m, n), job.op);
      RenderFrom(d, job, cells, m, n) == if blitted.None? then None else RenderFrom(blitted.value, job, cells, m, n + 1)
  {
  }

  /** An empty grid renders nothing. */
  lemma RenderEmptyGrid(d: seq<bv8>, job: RenderJob, cells: seq<seq<int>>)
    requires CellsShaped(cells, job.grid) && (job.grid.gridWidth == 0 || job.grid.gridHeight == 0)
    ensures RenderFrom(d, job, cells, 0, 0) == Some(d)
  {
    if job.grid.gridHeight > 0 {
      RenderEmptyRows(d, job, cells, 0);
    }
  }

  lemma {:induction false} RenderEmptyRows(d: seq<bv8>, job: RenderJob, cells: seq<seq<int>>, m: int)
    requires CellsShaped(cells, job.grid) && job.grid.gridWidth == 0 && 0 <= m
    ensures RenderFrom(d, job, cells, m, 0) == Some(d)
    decreases job.grid.gridHeight - m
  {
    if m < job.grid.gridHeight {
      RenderEmptyRows(d, job, cells, m + 1);
    }
  }

  /**
   * A gray value that selects no pattern makes the rendering fail, whatever
   * was rendered before it.
   */
  lemma RenderFailsOnMissingPattern(d: seq<bv8>, job: RenderJob, cells: seq<seq<int>>, m: int, n: int)
    requires CellsShaped(cells, job.grid) && 0 <= m < job.grid.gridHeight && 0 <= n < job.grid.gridWidth
    requires !(0 <= cells[m][n] < |job.patterns|)
    ensures RenderFrom(d, job, cells, m, n).None?
  {
  }

  /** The gray values of a grid, HGH rows of HGW. */
  function GrayRows(planes: seq<seq<bv8>>, stride: int, count: nat, g: Grid): (r: seq<seq<int>>)
    requires count <= |planes| && 0 <= g.gridHeight && 0 <= g.gridWidth
    ensures CellsShaped(r, g)
    ensures forall m, n :: 0 <= m < g.gridHeight && 0 <= n < g.gridWidth ==>
      r[m][n] == GrayValue(planes, stride, n, m, count)
  {
    seq(g.gridHeight, m requires 0 <= m < g.gridHeight => GrayRow(planes, stride, count, m, g.gridWidth))
  }

  function GrayRow(planes: seq<seq<bv8>>, stride: int, count: nat, m: int, width: int): (r: seq<int>)
    requires count <= |planes| && 0 <= width
    ensures |r| == width && forall n :: 0 <= n < width ==> r[n] == GrayValue(planes, stride, n, m, count)
  {
    seq(width, n requires 0 <= n < width => GrayValue(planes, stride, n, m, count))
  }

  // ---------------------------------------------------------------------------
  // The whole decoding procedure (section 6.6.5)

  /**
   * What the generic region decoder returns: with HBPP >= 0 and an HGW x HGH
   * size that can be allocated, one plane of that size per bit.
   */
  ghost predicate PlanesFor(decodedPlanes: seq<seq<bv8>>, count: nat, g: Grid)
  {
    BitsPerValue(count) >= 0 && PlaneBytes(g) >= 0 ==>
      |decodedPlanes| == BitsPerValue(count) && HalftoneRegion.PlaneSized(decodedPlanes, g)
  }

  /**
   * Steps 2 to 5 on a region holding `initial`: HSKIP needs a first pattern
   * and an HGW x HGH bitmap; the planes, the gray-value array and the
   * rendering then follow, each failing where Java throws.  As in
   * `grayScaleDecoding`, a single pattern (HBPP = 0) fails.
   */
  ghost function RegionRendering(initial: seq<bv8>, job: RenderJob, skipEnabled: bool,
                                 decodedPlanes: seq<seq<bv8>>): (r: Result<seq<bv8>>)
    requires PlanesFor(decodedPlanes, |job.patterns|, job.grid)
    ensures r.Ok? ==> |r.value| == |initial|
    ensures skipEnabled && |job.patterns| == 0 ==> r == Fail(IndexOutOfBounds)
    ensures r.Ok? ==> 2 <= |job.patterns| && 0 <= job.grid.gridWidth && 0 <= job.grid.gridHeight
  {
    var g, count := job.grid, |job.patterns|;
    var bitsPerValue := BitsPerValue(count);
    if skipEnabled && count == 0 then Fail(IndexOutOfBounds)
    else if bitsPerValue < 0 || PlaneBytes(g) < 0 then Fail(NegativeSize)
    else if bitsPerValue == 0 then Fail(IndexOutOfBounds)
    else if g.gridHeight < 0 || g.gridWidth < 0 then Fail(NegativeSize)
    else
      var planes := BinaryPlanes(PlaneOrder(decodedPlanes), ScanLength(g.gridWidth, g.gridHeight));
      match RenderFrom(initial, job, GrayRows(planes, RowStride(g.gridWidth), bitsPerValue, g), 0, 0)
      case None => Fail(IndexOutOfBounds)
      case Some(d) => Ok(d)
  }

  /**
   * A halftone region over a single pattern, whose gray values are all 0
   * by Annex C.5, is never rendered: the planes array has no room for the
   * first plane.
   */
  lemma SinglePatternRefusedAsWritten(initial: seq<bv8>, job: RenderJob, skipEnabled: bool,
                                      decodedPlanes: seq<seq<bv8>>)
    requires PlanesFor(decodedPlanes, |job.patterns|, job.grid)
    requires |job.patterns| == 1 && PlaneBytes(job.grid) >= 0
    ensures RegionRendering(initial, job, skipEnabled, decodedPlanes) == Fail(IndexOutOfBounds)
  {
    assert BitsPerValue(1) == 0;
  }

  /** Every bitmap of every referred pattern dictionary that can be read is valid. */
  ghost predicate DictionariesValid(ds: seq<Result<seq<Bitmap>>>)
  {
    forall d, k :: 0 <= d < |ds| && ds[d].Ok? && 0 <= k < |ds[d].value| ==> ds[d].value[k].Valid()
  }

  /** Every bitmap of every pattern list is valid. */
  ghost predicate AllValid(dictionaries: seq<seq<Bitmap>>)
  {
    forall d, k :: 0 <= d < |dictionaries| && 0 <= k < |dictionaries[d]| ==> dictionaries[d][k].Valid()
  }

  lemma {:induction false} ConcatenatedValid(dictionaries: seq<seq<Bitmap>>)
    requires AllValid(dictionaries)
    ensures forall i :: 0 <= i < |Concatenated(dictionaries)| ==> Concatenated(dictionaries)[i].Valid()
    decreases |dictionaries|
  {
    if |dictionaries| > 0 {
      var init := dictionaries[..|dictionaries| - 1];
      assert AllValid(init) by {
        forall d, k | 0 <= d < |init| && 0 <= k < |init[d]| ensures init[d][k].Valid() {
          assert init[d] == dictionaries[d];
        }
      }
      ConcatenatedValid(init);
    }
  }

  // ---------------------------------------------------------------------------
  // The region

  /** The rendering `renderPattern` does onto `region`. */
  ghost function JobOf(region: Bitmap, ps: seq<Bitmap>, g: Grid, op: CombinationOperator): RenderJob
    reads set i | 0 <= i < |ps| :: ps[i].bitmap
  {
    RenderJob(g, ImagesOf(ps), region.width, region.height, region.rowStride, op)
  }

  class HalftoneRegion {
    var dataHeaderOffset: int
    var dataHeaderLength: int
    var dataOffset: int
    var dataLength: int
    /** The bitmap width and height of the region segment information field. */
    var regionWidth: int
    var regionHeight: int
    var hDefaultPixel: nat
    var hCombinationOperator: CombinationOperator
    var hSkipEnabled: bool
    var hTemplate: nat
    var isMMREncoded: bool
    /** HGW, HGH, HGX, HGY, HRX and HRY. */
    var grid: Grid
    /** The decoded region, `null` until `getRegionBitmap` first runs. */
    var halftoneRegionBitmap: Bitmap?
    /** `null` until `getRegionBitmap` collects them. */
    var patterns: Option<seq<Bitmap>>

    /**
     * The object as `init` leaves it before `parseHeader`: the region segment
     * information gives the region's size; every other field at Java's default.
     */
    constructor (regionWidth: int, regionHeight: int)
      ensures this.regionWidth == regionWidth && this.regionHeight == regionHeight
      ensures dataHeaderOffset == 0 && dataHeaderLength == 0 && dataOffset == 0 && dataLength == 0
      ensures hDefaultPixel == 0 && hCombinationOperator == OR && !hSkipEnabled && hTemplate == 0
      ensures !isMMREncoded && grid == Grid(0, 0, 0, 0, 0, 0)
      ensures halftoneRegionBitmap == null && patterns == None
    {
      this.regionWidth, this.regionHeight := regionWidth, regionHeight;
      dataHeaderOffset, dataHeaderLength, dataOffset, dataLength := 0, 0, 0, 0;
      hDefaultPixel, hCombinationOperator, hSkipEnabled, hTemplate := 0, OR, false, 0;
      isMMREncoded, grid := false, Grid(0, 0, 0, 0, 0, 0);
      halftoneRegionBitmap, patterns := null, None;
    }

    /**
     * Section 7.4.5.1.1, the flags byte.  The skip and MMR flags are only
     * ever switched on: a clear bit leaves the field as it was.
     */
    method ReadFlags(sis: BitReader) returns (o: Outcome)
      modifies this`hDefaultPixel, this`hCombinationOperator, this`hSkipEnabled, this`hTemplate
      modifies this`isMMREncoded, sis`pos
      ensures var p := old(sis.pos);
        if p + 8 <= |sis.bits| then
          && o == Success && sis.pos == p + 8
          && hDefaultPixel == Flag(sis.bits[p])
          && hCombinationOperator == OperatorFromCode(FieldAt(sis.bits, p + 1, 3))
          && hSkipEnabled == (old(hSkipEnabled) || sis.bits[p + 4])
          && hTemplate == TwoBits(sis.bits, p + 5)
          && isMMREncoded == (old(isMMREncoded) || sis.bits[p + 7])
        else o == Failure(EndOfStream)
    {
      ghost var p := sis.pos;
      var d := sis.ReadBit();
      if d.Fail? { return Failure(d.error); }
      var c := sis.ReadBits(3);
      if c.Fail? { return Failure(c.error); }
      var s := sis.ReadBit();
      if s.Fail? { return Failure(s.error); }
      var t := sis.ReadBits(2);
      if t.Fail? { return Failure(t.error); }
      var m := sis.ReadBit();
      if m.Fail? { return Failure(m.error); }
      hDefaultPixel := d.value;
      hCombinationOperator := OperatorFromCode(c.value);
      if s.value == 1 {
        hSkipEnabled := true;
      }
      hTemplate := t.value;
      if m.value == 1 {
        isMMREncoded := true;
      }
      o := Success;
    }

    /** Sections 7.4.5.1.2 and 7.4.5.1.3: four 32-bit `int`s, then two 16-bit values. */
    method ReadGrid(sis: BitReader) returns (o: Outcome)
      modifies this`grid, sis`pos
      ensures var p := old(sis.pos);
        if p + 160 <= |sis.bits| then
          && o == Success && sis.pos == p + 160
          && grid == Grid(Int32(WordAt(sis.bits, p)), Int32(WordAt(sis.bits, p + 32)),
                          Int32(WordAt(sis.bits, p + 64)), Int32(WordAt(sis.bits, p + 96)),
                          FieldAt(sis.bits, p + 128, 16), FieldAt(sis.bits, p + 144, 16))
        else o == Failure(EndOfStream)
    {
      var w := sis.ReadBits(32);
      if w.Fail? { return Failure(w.error); }
      var h := sis.ReadBits(32);
      if h.Fail? { return Failure(h.error); }
      var gx := sis.ReadBits(32);
      if gx.Fail? { return Failure(gx.error); }
      var gy := sis.ReadBits(32);
      if gy.Fail? { return Failure(gy.error); }
      var rx := sis.ReadBits(16);
      if rx.Fail? { return Failure(rx.error); }
      var ry := sis.ReadBits(16);
      if ry.Fail? { return Failure(ry.error); }
      grid := Grid(Int32(w.value), Int32(h.value), Int32(gx.value), Int32(gy.value), rx.value, ry.value);
      o := Success;
    }

    /** `computeSegmentDataStructure`, as for the pattern dictionary. */
    method ComputeSegmentDataStructure(sis: BitReader)
      modifies this`dataOffset, this`dataHeaderLength, this`dataLength
      ensures dataOffset == sis.pos / 8 && dataHeaderLength == dataOffset - dataHeaderOffset
      ensures dataLength == |sis.bits| / 8 - dataHeaderLength
    {
      dataOffset := sis.StreamPosition();
      dataHeaderLength := dataOffset - dataHeaderOffset;
      dataLength := |sis.bits| / 8 - dataHeaderLength;
    }

    /**
     * `parseHeader`, from just after the region segment information field:
     * the fields of `HalftoneHeaderAt`, then where the data starts.
     */
    method ParseHeader(sis: BitReader) returns (o: Outcome)
      modifies this`hDefaultPixel, this`hCombinationOperator, this`hSkipEnabled, this`hTemplate
      modifies this`isMMREncoded, this`grid, sis`pos
      modifies this`dataOffset, this`dataHeaderLength, this`dataLength
      ensures HalftoneHeaderAt(sis.bits, old(sis.pos)).None? ==> o == Failure(EndOfStream)
      ensures HalftoneHeaderAt(sis.bits, old(sis.pos)).Some? ==>
        var h := HalftoneHeaderAt(sis.bits, old(sis.pos)).value;
        && o == Success && sis.pos == h.next
        && hDefaultPixel == h.defaultPixel && hCombinationOperator == h.combinationOperator
        && hSkipEnabled == (old(hSkipEnabled) || h.skipEnabled) && hTemplate == h.template
        && isMMREncoded == (old(isMMREncoded) || h.isMMREncoded) && grid == h.grid
        && dataOffset == h.next / 8 && dataHeaderLength == dataOffset - dataHeaderOffset
        && dataLength == |sis.bits| / 8 - dataHeaderLength
    {
      o := ReadFields(sis);
      if o.Failure? { return; }
      ComputeSegmentDataStructure(sis);
    }

    /** The flags byte and the grid fields of section 7.4.5.1. */
    method ReadFields(sis: BitReader) returns (o: Outcome)
      modifies this`hDefaultPixel, this`hCombinationOperator, this`hSkipEnabled, this`hTemplate
      modifies this`isMMREncoded, this`grid, sis`pos
      ensures HalftoneHeaderAt(sis.bits, old(sis.pos)).None? ==> o == Failure(EndOfStream)
      ensures HalftoneHeaderAt(sis.bits, old(sis.pos)).Some? ==>
        var h := HalftoneHeaderAt(sis.bits, old(sis.pos)).value;
        && o == Success && sis.pos == h.next
        && hDefaultPixel == h.defaultPixel && hCombinationOperator == h.combinationOperator
        && hSkipEnabled == (old(hSkipEnabled) || h.skipEnabled) && hTemplate == h.template
        && isMMREncoded == (old(isMMREncoded) || h.isMMREncoded) && grid == h.grid
    {
      o := ReadFlags(sis);
      if o.Failure? { return; }
      o := ReadGrid(sis);
    }

    /**
     * `getPatterns`: the patterns of every referred-to dictionary, in the
     * order of the referred-to segments.
     */
    static method GetPatterns(ds: seq<Result<seq<Bitmap>>>) returns (r: Result<seq<Bitmap>>)
      ensures Collected(ds).Fail? ==> r == Fail(Collected(ds).error)
      ensures Collected(ds).Ok? ==>
        r == Ok(Concatenated(Collected(ds).value)) && |r.value| == TotalSize(Collected(ds).value)
    {
      var patterns := [];
      ghost var got := [];
      var i := 0;
      while i < |ds|
        invariant 0 <= i <= |ds|
        invariant Collected(ds[..i]) == Ok(got) && patterns == Concatenated(got)
      {
        assert ds[..i + 1][..i] == ds[..i];
        if ds[i].Fail? {
          CollectedFailureStays(ds, i + 1);
          return Fail(ds[i].error);
        }
        assert (got + [ds[i].value])[..|got|] == got;
        patterns := patterns + ds[i].value;
        got := got + [ds[i].value];
        i := i + 1;
      }
      assert ds[..i] == ds;
      ConcatenatedSize(got);
      r := Ok(patterns);
    }

    /**
     * `computeHSkip(pw, ph)`: an HGW x HGH mask whose pixel (n, m) is 1
     * exactly when grid cell (m, n) is skipped for a `pw` x `ph` pattern on
     * the region; pad columns stay 0.
     */
    method ComputeHSkip(pw: int, ph: int) returns (r: Result<Bitmap>)
      requires halftoneRegionBitmap != null
      ensures grid.gridHeight * RowStride(grid.gridWidth) < 0 ==> r == Fail(NegativeSize)
      ensures grid.gridHeight * RowStride(grid.gridWidth) >= 0 ==>
        && r.Ok? && fresh(r.value) && fresh(r.value.bitmap) && r.value.Valid()
        && r.value.width == grid.gridWidth && r.value.height == grid.gridHeight
        && forall m, n :: 0 <= m < grid.gridHeight && 0 <= n < 8 * r.value.rowStride ==>
             GridPixel(r.value.bitmap[..], r.value.rowStride, grid.gridHeight, n, m)
               == SkipPixel(grid, m, n, pw, ph, halftoneRegionBitmap.width, halftoneRegionBitmap.height)
    {
      var g := grid;
      var hbw, hbh := halftoneRegionBitmap.width, halftoneRegionBitmap.height;
      if g.gridHeight * RowStride(g.gridWidth) < 0 {
        return Fail(NegativeSize);
      }
      var mask := new Bitmap(g.gridWidth, g.gridHeight);
      r := FillSkipMask(mask, g, pw, ph, hbw, hbh);
    }

    /** The loops of `computeHSkip` over a fresh all-zero mask. */
    static method FillSkipMask(mask: Bitmap, g: Grid, pw: int, ph: int, hbw: int, hbh: int)
      returns (r: Result<Bitmap>)
      requires mask.Valid() && mask.width == g.gridWidth && mask.height == g.gridHeight
      requires forall i :: 0 <= i < mask.bitmap.Length ==> mask.bitmap[i] == 0
      modifies mask.bitmap
      ensures r == Ok(mask)
      ensures forall m, n :: 0 <= m < g.gridHeight && 0 <= n < 8 * mask.rowStride ==>
        GridPixel(mask.bitmap[..], mask.rowStride, g.gridHeight, n, m) == SkipPixel(g, m, n, pw, ph, hbw, hbh)
    {
      var stride, height := mask.rowStride, g.gridHeight;
      forall m, n | 0 <= m < height && 0 <= n < 8 * stride
        ensures GridPixel(mask.bitmap[..], stride, height, n, m) == 0
      {
        ByteIndexInGrid(stride, height, n, m);
      }
      var m := 0;
      while m < height
        invariant 0 <= m || height <= 0
        invariant forall b, a :: 0 <= b < height && 0 <= a < 8 * stride ==>
          GridPixel(mask.bitmap[..], stride, height, a, b)
            == if b < m then SkipPixel(g, b, a, pw, ph, hbw, hbh) else 0
      {
        var n := 0;
        while n < g.gridWidth
          invariant 0 <= n && (n <= g.gridWidth || g.gridWidth <= 0)
          invariant forall b, a :: 0 <= b < height && 0 <= a < 8 * stride ==>
            GridPixel(mask.bitmap[..], stride, height, a, b)
              == if b < m || (b == m && a < n) then SkipPixel(g, b, a, pw, ph, hbw, hbh) else 0
        {
          SkipStep(mask, g, m, n, pw, ph, hbw, hbh);
          n := n + 1;
        }
        m := m + 1;
      }
      r := Ok(mask);
    }

    /** One cell of `computeHSkip`: pixel (n, m) becomes its HSKIP value. */
    static method SkipStep(mask: Bitmap, g: Grid, m: int, n: int, pw: int, ph: int, hbw: int, hbh: int)
      requires mask.Valid() && mask.width == g.gridWidth && mask.height == g.gridHeight
      requires 0 <= m < g.gridHeight && 0 <= n < g.gridWidth
      requires forall b, a :: 0 <= b < mask.height && 0 <= a < 8 * mask.rowStride ==>
        GridPixel(mask.bitmap[..], mask.rowStride, mask.height, a, b)
          == if b < m || (b == m && a < n) then SkipPixel(g, b, a, pw, ph, hbw, hbh) else 0
      modifies mask.bitmap
      ensures forall b, a :: 0 <= b < mask.height && 0 <= a < 8 * mask.rowStride ==>
        GridPixel(mask.bitmap[..], mask.rowStride, mask.height, a, b)
          == if b < m || (b == m && a <= n) then SkipPixel(g, b, a, pw, ph, hbw, hbh) else 0
    {
      var stride, height := mask.rowStride, mask.height;
      ghost var before := mask.bitmap[..];
      ByteIndexInGrid(stride, height, n, m);
      if Skipped(g, m, n, pw, ph, hbw, hbh) {
        mask.SetPixel(n, m, 1);
        forall b, a | 0 <= b < height && 0 <= a < 8 * stride
          ensures GridPixel(mask.bitmap[..], stride, height, a, b)
            == if b < m || (b == m && a <= n) then SkipPixel(g, b, a, pw, ph, hbw, hbh) else 0
        {
          WithPixelSetPixels(before, stride, height, n, m, a, b);
        }
      }
    }

    /**
     * `combineGrayScalePlanes(planes, j)`: each byte of plane `j` the scan
     * reaches becomes its XOR with the byte of plane `j + 1`; only plane
     * `j`'s buffer changes.
     */
    static method CombineGrayScalePlanes(planes: seq<Bitmap>, j: int) returns (r: seq<Bitmap>)
      requires 0 <= j && j + 1 < |planes|
      requires planes[j].Valid() && planes[j + 1].Valid()
      requires planes[j + 1].width == planes[j].width && planes[j + 1].height == planes[j].height
      requires planes[j].bitmap != planes[j + 1].bitmap
      modifies planes[j].bitmap
      ensures r == planes
      ensures planes[j].bitmap[..] == XorBytes(old(planes[j].bitmap[..]), planes[j + 1].bitmap[..],
                                                ScanLength(planes[j].width, planes[j].height))
    {
      var lower, upper := planes[j], planes[j + 1];
      var stride, height := lower.rowStride, lower.height;
      ghost var orig := lower.bitmap[..];
      ghost var cols := if lower.width > 0 then stride else 0;
      XorBytesNone(orig, upper.bitmap[..]);
      var byteIndex := 0;
      var y := 0;
      while y < height
        invariant 0 <= y && (height > 0 ==> y <= height) && (height <= 0 ==> y == 0)
        invariant byteIndex == y * cols && byteIndex <= lower.bitmap.Length
        invariant lower.bitmap[..] == XorBytes(orig, upper.bitmap[..], byteIndex)
      {
        ByteIndexRows(y, height, cols, lower.bitmap.Length);
        byteIndex := CombineRow(lower, upper, orig, y, byteIndex);
        y := y + 1;
      }
      r := planes;
    }

    /** One row of `combineGrayScalePlanes`: the bytes of row `y` of `lower`, XORed in order. */
    static method CombineRow(lower: Bitmap, upper: Bitmap, ghost orig: seq<bv8>, y: int, start: int)
      returns (byteIndex: int)
      requires lower.Valid() && upper.Valid() && lower.bitmap != upper.bitmap
      requires upper.width == lower.width && upper.height == lower.height
      requires |orig| == lower.bitmap.Length && 0 <= y < lower.height
      requires start == y * (if lower.width > 0 then lower.rowStride else 0)
      requires start + (if lower.width > 0 then lower.rowStride else 0) <= lower.bitmap.Length
      requires lower.bitmap[..] == XorBytes(orig, upper.bitmap[..], start)
      modifies lower.bitmap
      ensures byteIndex == start + (if lower.width > 0 then lower.rowStride else 0)
      ensures lower.bitmap[..] == XorBytes(orig, upper.bitmap[..], byteIndex)
    {
      var stride, height := lower.rowStride, lower.height;
      byteIndex := start;
      var x := 0;
      while x < lower.width
        invariant 0 <= x && x % 8 == 0 && (x == 0 || x < lower.width + 8)
        invariant byteIndex == start + x / 8
        invariant lower.bitmap[..] == XorBytes(orig, upper.bitmap[..], byteIndex)
      {
        ByteIndexInGrid(stride, height, x, y);
        var newValue := upper.bitmap[byteIndex];
        var oldValue := lower.bitmap[byteIndex];
        XorBytesStep(orig, upper.bitmap[..], byteIndex);
        lower.SetByte(byteIndex, CombineBytes(oldValue, newValue, XOR));
        byteIndex := byteIndex + 1;
        x := x + 8;
      }
      assert x / 8 == (if lower.width > 0 then stride else 0);
    }

    /**
     * `grayScaleDecoding` as written.  `decodedPlanes` holds, most
     * significant first, the bytes the generic region decoder returns for
     * each plane.  With `bitsPerValue == 0` (a single pattern) the method
     * decodes its first plane (whose allocation fails first when HGW x HGH
     * is too large), stores it at index -1 of a zero-length array and
     * throws.
     */
    method GrayScaleDecoding(bitsPerValue: int, decodedPlanes: seq<seq<bv8>>) returns (r: Result<array2<int>>)
      requires bitsPerValue > 0 && PlaneBytes(grid) >= 0 ==>
        |decodedPlanes| == bitsPerValue && PlaneSized(decodedPlanes, grid)
      ensures bitsPerValue < 0 || PlaneBytes(grid) < 0 ==> r == Fail(NegativeSize)
      ensures bitsPerValue == 0 && PlaneBytes(grid) >= 0 ==> r == Fail(IndexOutOfBounds)
      ensures r.Ok? ==> fresh(r.value)
      ensures bitsPerValue > 0 && PlaneBytes(grid) >= 0 ==>
        GrayValuesOf(r, BinaryPlanes(PlaneOrder(decodedPlanes), ScanLength(grid.gridWidth, grid.gridHeight)),
                     grid, bitsPerValue)
    {
      if bitsPerValue < 0 {
        return Fail(NegativeSize);
      }
      if PlaneBytes(grid) < 0 {
        return Fail(NegativeSize);
      }
      if bitsPerValue == 0 {
        return Fail(IndexOutOfBounds);
      }
      var planes := DecodeAllPlanes(bitsPerValue, decodedPlanes, grid);
      ghost var target := Contents(planes);
      r := ComputeGrayScaleValues(planes, bitsPerValue);
      assert Contents(planes) == target;
    }

    /**
     * The planes array after steps 2 and 3: fresh bitmaps, plane `k` at
     * index `k`, each converted from Gray code.
     */
    static method DecodeAllPlanes(bitsPerValue: int, decodedPlanes: seq<seq<bv8>>, g: Grid)
      returns (planes: seq<Bitmap>)
      requires bitsPerValue > 0 && |decodedPlanes| == bitsPerValue && PlaneSized(decodedPlanes, g)
      ensures |planes| == bitsPerValue && PlanesShaped(planes, g)
      ensures Contents(planes) == BinaryPlanes(PlaneOrder(decodedPlanes), ScanLength(g.gridWidth, g.gridHeight))
    {
      var decoded := NewPlanes(decodedPlanes, g);
      ghost var p := PlaneOrder(decodedPlanes);
      ghost var n := ScanLength(g.gridWidth, g.gridHeight);
      planes := DecodePlanes(bitsPerValue, decoded, g, p);
      ghost var target := BinaryPlanes(p, n);
      assert forall k :: 0 <= k < |decoded| ==> decoded[|decoded| - 1 - k].bitmap[..] == target[k];
      SuffixContents(decoded, g, target);
    }

    /**
     * The gray-scale decoding the standard describes (Annex C.5 with
     * GSBPP = 0 decodes no plane): with a single pattern every gray value
     * is 0.  Otherwise it is `GrayScaleDecoding`.
     */
    method GrayScaleDecodingIntended(bitsPerValue: int, decodedPlanes: seq<seq<bv8>>)
      returns (r: Result<array2<int>>)
      requires bitsPerValue >= 0 && PlaneBytes(grid) >= 0 ==>
        |decodedPlanes| == bitsPerValue && PlaneSized(decodedPlanes, grid)
      ensures bitsPerValue < 0 || PlaneBytes(grid) < 0 ==> r == Fail(NegativeSize)
      ensures r.Ok? ==> fresh(r.value)
      ensures bitsPerValue >= 0 && PlaneBytes(grid) >= 0 ==>
        GrayValuesOf(r, BinaryPlanes(PlaneOrder(decodedPlanes), ScanLength(grid.gridWidth, grid.gridHeight)),
                     grid, bitsPerValue)
    {
      if bitsPerValue != 0 {
        r := GrayScaleDecoding(bitsPerValue, decodedPlanes);
        return;
      }
      var g := grid;
      if g.gridHeight < 0 || g.gridWidth < 0 {
        return Fail(NegativeSize);
      }
      var values := new int[g.gridHeight, g.gridWidth]((_, _) => 0);
      r := Ok(values);
    }

    /** Every plane the generic region decoder returns is an HGW x HGH bitmap. */
    static ghost predicate PlaneSized(decodedPlanes: seq<seq<bv8>>, g: Grid)
    {
      forall i :: 0 <= i < |decodedPlanes| ==> |decodedPlanes[i]| == g.gridHeight * RowStride(g.gridWidth)
    }

    /** The bitmaps the generic region decoder returns: fresh, one per plane. */
    static method NewPlanes(decodedPlanes: seq<seq<bv8>>, g: Grid) returns (decoded: seq<Bitmap>)
      requires PlaneSized(decodedPlanes, g)
      ensures |decoded| == |decodedPlanes| && PlanesShaped(decoded, g) && PlanesDistinct(decoded)
      ensures forall i :: 0 <= i < |decoded| ==> fresh(decoded[i].bitmap) && decoded[i].bitmap[..] == decodedPlanes[i]
    {
      decoded := [];
      while |decoded| < |decodedPlanes|
        invariant |decoded| <= |decodedPlanes| && PlanesShaped(decoded, g) && PlanesDistinct(decoded)
        invariant forall i :: 0 <= i < |decoded| ==>
          fresh(decoded[i].bitmap) && decoded[i].bitmap[..] == decodedPlanes[i]
      {
        var b := NewPlane(g, decodedPlanes[|decoded|]);
        decoded := decoded + [b];
      }
    }

    static method NewPlane(g: Grid, bytes: seq<bv8>) returns (b: Bitmap)
      requires |bytes| == g.gridHeight * RowStride(g.gridWidth)
      ensures fresh(b) && fresh(b.bitmap) && b.Valid() && b.width == g.gridWidth && b.height == g.gridHeight
      ensures b.bitmap[..] == bytes
    {
      b := new Bitmap(g.gridWidth, g.gridHeight);
      forall i | 0 <= i < b.bitmap.Length {
        b.bitmap[i] := bytes[i];
      }
    }

    /**
     * Steps 2 and 3 of Annex C.5: plane `bitsPerValue - 1` first, then each
     * lower plane, combined with the one above it as soon as it is decoded.
     * The Java array `grayScalePlanes` is modelled by the part filled so
     * far, planes `j` to `bitsPerValue - 1`; `p` holds the decoded bytes of
     * plane `k` at index `k`.
     */
    static method DecodePlanes(bitsPerValue: int, decoded: seq<Bitmap>, g: Grid, ghost p: seq<seq<bv8>>)
      returns (planes: seq<Bitmap>)
      requires bitsPerValue > 0 && |decoded| == bitsPerValue == |p|
      requires PlanesShaped(decoded, g) && PlanesDistinct(decoded)
      requires forall k :: 0 <= k < |decoded| ==> p[k] == decoded[|decoded| - 1 - k].bitmap[..]
      modifies set i | 0 <= i < |decoded| :: decoded[i].bitmap
      ensures planes == Suffix(decoded, 0)
      ensures PlaneSized(p, g)
      ensures PlanesAt(decoded, p, BinaryPlanes(p, ScanLength(g.gridWidth, g.gridHeight)), 0)
    {
      assert PlaneSized(p, g);
      ghost var n := ScanLength(g.gridWidth, g.gridHeight);
      ghost var target := BinaryPlanes(p, n);
      assert target[|p| - 1] == Binary(p, |p| - 1, n) == p[|p| - 1];
      PlanesAtStart(decoded, p, target);
      planes := [decoded[0]];
      var j := bitsPerValue - 1;
      while j > 0
        invariant 0 <= j < bitsPerValue && planes == Suffix(decoded, j) && |p| == |decoded| == |target|
        invariant PlanesAt(decoded, p, target, j)
      {
        BinaryPlanesStep(p, n, j - 1);
        ghost var b := |decoded| - j;
        assert decoded[b].bitmap in set i | 0 <= i < |decoded| :: decoded[i].bitmap;
        planes := DecodeNext(decoded, planes, j, g, p, target);
        j := j - 1;
      }
    }

    /** Before step 3 only the top plane is combined, and it is its own result. */
    static lemma PlanesAtStart(decoded: seq<Bitmap>, p: seq<seq<bv8>>, target: seq<seq<bv8>>)
      requires 0 < |decoded| == |p| == |target| && target[|p| - 1] == p[|p| - 1]
      requires forall k :: 0 <= k < |decoded| ==> p[k] == decoded[|decoded| - 1 - k].bitmap[..]
      ensures PlanesAt(decoded, p, target, |decoded| - 1)
    {
    }

    /**
     * The state of step 3 before plane `j - 1` is decoded: the planes below
     * `j` hold what the decoder produced, those from `j` up their final values.
     */
    static ghost predicate PlanesAt(decoded: seq<Bitmap>, p: seq<seq<bv8>>, target: seq<seq<bv8>>, j: int)
      reads set i | 0 <= i < |decoded| :: decoded[i].bitmap
      requires |p| == |decoded| == |target|
    {
      forall k :: 0 <= k < |decoded| ==>
        decoded[|decoded| - 1 - k].bitmap[..] == if k < j then p[k] else target[k]
    }

    /**
     * One pass of the loop of step 3: plane `j - 1` joins the array and is
     * combined with plane `j`.
     */
    static method DecodeNext(decoded: seq<Bitmap>, planes: seq<Bitmap>, j: int, g: Grid,
                             ghost p: seq<seq<bv8>>, ghost target: seq<seq<bv8>>)
      returns (next: seq<Bitmap>)
      requires 0 < j < |decoded| && planes == Suffix(decoded, j)
      requires PlanesShaped(decoded, g) && PlanesDistinct(decoded)
      requires |p| == |decoded| == |target|
      requires |p[j - 1]| == |target[j]| == g.gridHeight * RowStride(g.gridWidth)
      requires target[j - 1] == XorBytes(p[j - 1], target[j], ScanLength(g.gridWidth, g.gridHeight))
      requires PlanesAt(decoded, p, target, j)
      modifies decoded[|decoded| - j].bitmap
      ensures next == Suffix(decoded, j - 1)
      ensures PlanesAt(decoded, p, target, j - 1)
    {
      var b := |decoded| - j;
      var lower, upper := decoded[b], decoded[b - 1];
      forall a | 0 <= a < |decoded| && a != b
        ensures decoded[a].bitmap != lower.bitmap
      {
        if a < b { assert decoded[a].bitmap != decoded[b].bitmap; }
        else { assert decoded[b].bitmap != decoded[a].bitmap; }
      }
      assert upper.bitmap[..] == target[j];
      assert lower.bitmap[..] == p[j - 1];
      next := [lower] + planes;
      assert next == Suffix(decoded, j - 1) && next[1] == upper;
      next := CombineGrayScalePlanes(next, 0);
      ghost var result := lower.bitmap[..];
      assert result == target[j - 1];
      forall k | 0 <= k < |decoded|
        ensures decoded[|decoded| - 1 - k].bitmap[..] == if k < j - 1 then p[k] else target[k]
      {
        var a := |decoded| - 1 - k;
        if a == b {
          assert decoded[a] == lower;
        } else {
          assert decoded[a].bitmap[..] == old(decoded[a].bitmap[..]);
        }
      }
    }

    /**
     * `computeGrayScaleValues`: entry `[y][x]` is the sum over the planes of
     * pixel (x, y) of plane `j` times `2^j`.
     */
    method ComputeGrayScaleValues(planes: seq<Bitmap>, bitsPerValue: int) returns (r: Result<array2<int>>)
      requires 1 <= bitsPerValue == |planes| && PlanesShaped(planes, grid)
      ensures r.Ok? ==> fresh(r.value)
      ensures GrayValuesOf(r, Contents(planes), grid, bitsPerValue)
    {
      var g := grid;
      if g.gridHeight < 0 || g.gridWidth < 0 {
        return Fail(NegativeSize);
      }
      var values := new int[g.gridHeight, g.gridWidth];
      FillGrayValues(values, planes, g, bitsPerValue);
      r := Ok(values);
    }

    /** The loops of `computeGrayScaleValues`: rows, groups of eight columns, then each column. */
    static method FillGrayValues(values: array2<int>, planes: seq<Bitmap>, g: Grid, bitsPerValue: int)
      requires values.Length0 == g.gridHeight && values.Length1 == g.gridWidth
      requires 1 <= bitsPerValue == |planes| && PlanesShaped(planes, g)
      modifies values
      ensures forall y, x :: 0 <= y < g.gridHeight && 0 <= x < g.gridWidth ==>
        values[y, x] == GrayValue(Contents(planes), RowStride(g.gridWidth), x, y, bitsPerValue)
    {
      ghost var p := Contents(planes);
      var stride := planes[0].rowStride;
      var y := 0;
      while y < g.gridHeight
        invariant 0 <= y <= g.gridHeight && Contents(planes) == p
        invariant FilledUpTo(values, p, stride, bitsPerValue, y, 0)
      {
        FillRow(values, planes, g, y, bitsPerValue, p, stride);
        y := y + 1;
      }
    }

    /**
     * The cells of `values` before cell (x, y) in row-major order hold
     * their gray values.
     */
    static ghost predicate FilledUpTo(values: array2<int>, p: seq<seq<bv8>>, stride: int, count: nat, y: int, x: int)
      reads values
      requires count <= |p|
    {
      forall b, a :: 0 <= b < values.Length0 && 0 <= a < values.Length1 && (b < y || (b == y && a < x)) ==>
        values[b, a] == GrayValue(p, stride, a, b, count)
    }

    /** One row of `computeGrayScaleValues`: groups of eight columns. */
    static method FillRow(values: array2<int>, planes: seq<Bitmap>, g: Grid, y: int, bitsPerValue: int,
                          ghost p: seq<seq<bv8>>, stride: int)
      requires values.Length0 == g.gridHeight && values.Length1 == g.gridWidth && 0 <= y < g.gridHeight
      requires 1 <= bitsPerValue == |planes| && PlanesShaped(planes, g)
      requires p == Contents(planes) && stride == planes[0].rowStride
      requires FilledUpTo(values, p, stride, bitsPerValue, y, 0)
      modifies values
      ensures FilledUpTo(values, p, stride, bitsPerValue, y + 1, 0)
    {
      var x := 0;
      while x < g.gridWidth
        invariant 0 <= x && x % 8 == 0 && (x == 0 || x < g.gridWidth + 8)
        invariant FilledUpTo(values, p, stride, bitsPerValue, y, x)
      {
        var minorWidth := if g.gridWidth - x > 8 then 8 else g.gridWidth - x;
        FillGroup(values, planes, g, y, x, minorWidth, bitsPerValue, p, stride);
        x := x + 8;
      }
      FilledRow(values, p, stride, bitsPerValue, y, x);
    }

    /** A row filled to its end is a next row filled from its start. */
    static lemma FilledRow(values: array2<int>, p: seq<seq<bv8>>, stride: int, count: nat, y: int, x: int)
      requires count <= |p| && x >= values.Length1
      requires FilledUpTo(values, p, stride, count, y, x)
      ensures FilledUpTo(values, p, stride, count, y + 1, 0)
    {
    }

    /** Up to eight columns sharing one byte of each plane. */
    static method FillGroup(values: array2<int>, planes: seq<Bitmap>, g: Grid, y: int, x: int, minorWidth: int,
                            bitsPerValue: int, ghost p: seq<seq<bv8>>, stride: int)
      requires values.Length0 == g.gridHeight && values.Length1 == g.gridWidth && 0 <= y < g.gridHeight
      requires 0 <= x < g.gridWidth && x % 8 == 0 && minorWidth == (if g.gridWidth - x > 8 then 8 else g.gridWidth - x)
      requires 1 <= bitsPerValue == |planes| && PlanesShaped(planes, g)
      requires p == Contents(planes) && stride == planes[0].rowStride
      requires FilledUpTo(values, p, stride, bitsPerValue, y, x)
      modifies values
      ensures FilledUpTo(values, p, stride, bitsPerValue, y, x + minorWidth)
    {
      var byteIndex := planes[0].GetByteIndex(x, y);
      var minorX := 0;
      while minorX < minorWidth
        invariant 0 <= minorX <= minorWidth
        invariant FilledUpTo(values, p, stride, bitsPerValue, y, x + minorX)
      {
        var i := minorX + x;
        ByteIndexInGrid(stride, g.gridHeight, i, y);
        AccumulateCell(values, planes, y, i, byteIndex, bitsPerValue, p);
        minorX := minorX + 1;
      }
    }

    static method AccumulateCell(values: array2<int>, planes: seq<Bitmap>, y: int, i: int, byteIndex: int,
                                 bitsPerValue: int, ghost p: seq<seq<bv8>>)
      requires 0 <= y < values.Length0 && 0 <= i < values.Length1
      requires 0 <= bitsPerValue == |planes| == |p|
      requires forall k :: 0 <= k < |planes| ==> p[k] == planes[k].bitmap[..]
      requires forall k :: 0 <= k < |planes| ==> planes[k].rowStride == planes[0].rowStride
      requires |planes| > 0 ==> byteIndex == ByteIndex(planes[0].rowStride, i, y)
      requires forall k :: 0 <= k < |planes| ==> 0 <= byteIndex < planes[k].bitmap.Length
      modifies values
      ensures |planes| > 0 ==> values[y, i] == GrayValue(p, planes[0].rowStride, i, y, bitsPerValue)
      ensures forall b, a :: 0 <= b < values.Length0 && 0 <= a < values.Length1 && (b != y || a != i) ==>
        values[b, a] == old(values[b, a])
    {
      values[y, i] := 0;
      var j := 0;
      while j < bitsPerValue
        invariant 0 <= j <= bitsPerValue
        invariant |planes| > 0 ==> values[y, i] == GrayValue(p, planes[0].rowStride, i, y, j)
        invariant forall b, a :: 0 <= b < values.Length0 && 0 <= a < values.Length1 && (b != y || a != i) ==>
          values[b, a] == old(values[b, a])
      {
        values[y, i] := values[y, i] + ValueBit(planes[j].bitmap[byteIndex], i) * Pow2(j);
        j := j + 1;
      }
    }

    /**
     * `renderPattern(values)`: cells in row-major order, each blitting
     * `patterns[values[m][n]]` onto the region at the cell's corner with the
     * region's operator.  `cells` is the table `values` holds.
     */
    method RenderPattern(values: array2<int>, ghost cells: seq<seq<int>>) returns (o: Outcome)
      requires halftoneRegionBitmap != null && halftoneRegionBitmap.Valid() && patterns.Some?
      requires SourcesFit(patterns.value, halftoneRegionBitmap)
      requires CellsShaped(cells, grid) && values.Length0 == grid.gridHeight && values.Length1 == grid.gridWidth
      requires forall m, n :: 0 <= m < grid.gridHeight && 0 <= n < grid.gridWidth ==> values[m, n] == cells[m][n]
      modifies halftoneRegionBitmap.bitmap
      ensures var region := halftoneRegionBitmap;
        var res := RenderFrom(old(region.bitmap[..]), JobOf(region, patterns.value, grid, hCombinationOperator),
                              cells, 0, 0);
        && (o == Success <==> res.Some?) && (o.Failure? ==> o.error == IndexOutOfBounds)
        && (res.Some? ==> region.bitmap[..] == res.value)
    {
      o := RenderRows(values, patterns.value, halftoneRegionBitmap, grid, hCombinationOperator, cells);
    }

    /** The rows of the grid, top to bottom. */
    static method RenderRows(values: array2<int>, ps: seq<Bitmap>, region: Bitmap, g: Grid, op: CombinationOperator,
                             ghost cells: seq<seq<int>>)
      returns (o: Outcome)
      requires region.Valid() && SourcesFit(ps, region)
      requires CellsShaped(cells, g) && values.Length0 == g.gridHeight && values.Length1 == g.gridWidth
      requires forall m, n :: 0 <= m < g.gridHeight && 0 <= n < g.gridWidth ==> values[m, n] == cells[m][n]
      modifies region.bitmap
      ensures var res := RenderFrom(old(region.bitmap[..]), JobOf(region, ps, g, op), cells, 0, 0);
        && (o == Success <==> res.Some?) && (o.Failure? ==> o.error == IndexOutOfBounds)
        && (res.Some? ==> region.bitmap[..] == res.value)
    {
      ghost var job := JobOf(region, ps, g, op);
      ghost var target := RenderFrom(region.bitmap[..], job, cells, 0, 0);
      assert job.grid == g;
      var m := 0;
      while m < g.gridHeight
        invariant 0 <= m <= g.gridHeight
        invariant ImagesOf(ps) == job.patterns
        invariant RenderFrom(region.bitmap[..], job, cells, m, 0) == target
      {
        o := RenderRow(values, ps, region, g, m, op, job, cells);
        if o.Failure? {
          return;
        }
        m := m + 1;
      }
      o := Success;
    }

    static method RenderRow(values: array2<int>, ps: seq<Bitmap>, region: Bitmap, g: Grid, m: int,
                            op: CombinationOperator, ghost job: RenderJob, ghost cells: seq<seq<int>>)
      returns (o: Outcome)
      requires region.Valid() && SourcesFit(ps, region) && job == JobOf(region, ps, g, op)
      requires ImagesOf(ps) == job.patterns
      requires CellsShaped(cells, g) && values.Length0 == g.gridHeight && values.Length1 == g.gridWidth
      requires 0 <= m < g.gridHeight
      requires forall n :: 0 <= n < g.gridWidth ==> values[m, n] == cells[m][n]
      modifies region.bitmap
      ensures ImagesOf(ps) == job.patterns
      ensures o.Failure? ==>
        o == Failure(IndexOutOfBounds) && RenderFrom(old(region.bitmap[..]), job, cells, m, 0).None?
      ensures o.Success? ==>
        RenderFrom(region.bitmap[..], job, cells, m + 1, 0) == RenderFrom(old(region.bitmap[..]), job, cells, m, 0)
    {
      ghost var target := RenderFrom(region.bitmap[..], job, cells, m, 0);
      var n := 0;
      while n < g.gridWidth
        invariant 0 <= n <= g.gridWidth
        invariant ImagesOf(ps) == job.patterns
        invariant RenderFrom(region.bitmap[..], job, cells, m, n) == target
      {
        o := RenderCell(values, ps, region, g, m, n, op, job, cells);
        if o.Failure? {
          return;
        }
        n := n + 1;
      }
      o := Success;
    }

    /** One cell of `renderPattern`: `x`, `y`, the pattern of the cell's gray value, and the blit. */
    static method RenderCell(values: array2<int>, ps: seq<Bitmap>, region: Bitmap, g: Grid, m: int, n: int,
                             op: CombinationOperator, ghost job: RenderJob, ghost cells: seq<seq<int>>)
      returns (o: Outcome)
      requires region.Valid() && SourcesFit(ps, region) && job == JobOf(region, ps, g, op)
      requires ImagesOf(ps) == job.patterns
      requires CellsShaped(cells, g) && values.Length0 == g.gridHeight && values.Length1 == g.gridWidth
      requires 0 <= m < g.gridHeight && 0 <= n < g.gridWidth && values[m, n] == cells[m][n]
      modifies region.bitmap
      ensures ImagesOf(ps) == job.patterns
      ensures o.Failure? ==>
        o == Failure(IndexOutOfBounds) && RenderFrom(old(region.bitmap[..]), job, cells, m, n).None?
      ensures o.Success? ==>
        RenderFrom(region.bitmap[..], job, cells, m, n + 1) == RenderFrom(old(region.bitmap[..]), job, cells, m, n)
    {
      ghost var before := region.bitmap[..];
      var x := ComputeX(g, m, n);
      var y := ComputeY(g, m, n);
      var v := values[m, n];
      if !(0 <= v < |ps|) {
        return Failure(IndexOutOfBounds);
      }
      ghost var image := job.patterns[v];
      assert image == ImageOf(ps[v]);
      o := Blit(ps[v], region, x, y, op);
      RenderFromCell(before, job, cells, m, n);
    }

    /** The number of patterns `getRegionBitmap` works with, when it gets them. */
    ghost function PatternCount(ds: seq<Result<seq<Bitmap>>>): nat
      reads this
    {
      if patterns.Some? then |patterns.value|
      else if Collected(ds).Ok? then TotalSize(Collected(ds).value)
      else 0
    }

    /** The patterns `getRegionBitmap` works with, when it gets them. */
    ghost function PatternsAfter(ds: seq<Result<seq<Bitmap>>>): Option<seq<Bitmap>>
      reads this
    {
      if patterns.Some? then patterns
      else if Collected(ds).Ok? then Some(Concatenated(Collected(ds).value))
      else None
    }

    /**
     * `getRegionBitmap`: decodes the region on the first call and keeps it.
     * `ds` stands for what the referred segments' pattern dictionaries
     * return and `decodedPlanes` for what the generic region decoder
     * returns for each gray-scale plane.  The bitmap field is set right
     * after the allocation and before the patterns are collected, so a
     * call that fails from then on leaves a region that the next call
     * returns: all 0 when the patterns could not be had.
     */
    method GetRegionBitmap(ds: seq<Result<seq<Bitmap>>>, decodedPlanes: seq<seq<bv8>>) returns (r: Result<Bitmap>)
      requires patterns.None? ==> DictionariesValid(ds)
      requires patterns.Some? ==> forall i :: 0 <= i < |patterns.value| ==> patterns.value[i].Valid()
      requires PlanesFor(decodedPlanes, PatternCount(ds), grid)
      modifies this`halftoneRegionBitmap, this`patterns
      ensures old(halftoneRegionBitmap) != null ==>
        r.Ok? && r.value == halftoneRegionBitmap && halftoneRegionBitmap == old(halftoneRegionBitmap)
        && patterns == old(patterns)
      ensures old(halftoneRegionBitmap) == null && regionHeight * RowStride(regionWidth) < 0 ==>
        r == Fail(NegativeSize) && halftoneRegionBitmap == null && patterns == old(patterns)
      ensures old(halftoneRegionBitmap) == null && regionHeight * RowStride(regionWidth) >= 0 ==>
        && halftoneRegionBitmap != null && fresh(halftoneRegionBitmap) && halftoneRegionBitmap.Valid()
        && halftoneRegionBitmap.width == regionWidth && halftoneRegionBitmap.height == regionHeight
        && patterns == old(PatternsAfter(ds))
        && (patterns.None? ==>
              && r == Fail(Collected(ds).error)
              && halftoneRegionBitmap.bitmap[..] == InitialRegion(regionHeight * RowStride(regionWidth), false))
        && (patterns.Some? ==>
              && |patterns.value| == old(PatternCount(ds))
              && var expected := RegionRendering(InitialRegion(regionHeight * RowStride(regionWidth), hDefaultPixel == 1),
                                   JobOf(halftoneRegionBitmap, patterns.value, grid, hCombinationOperator),
                                   hSkipEnabled, decodedPlanes);
                 && (r.Ok? <==> expected.Ok?)
                 && (r.Ok? ==> r.value == halftoneRegionBitmap && halftoneRegionBitmap.bitmap[..] == expected.value)
                 && (r.Fail? ==> r.error == expected.error))
    {
      if halftoneRegionBitmap != null {
        return Ok(halftoneRegionBitmap);
      }
      var w, h := regionWidth, regionHeight;
      if h * RowStride(w) < 0 {
        return Fail(NegativeSize);
      }
      ghost var collected := PatternsAfter(ds);
      ghost var sources := if collected.Some? then collected.value else [];
      var region := AllocateRegion(w, h, sources);
      halftoneRegionBitmap := region;
      var c := CollectPatterns(ds);
      if c.Failure? {
        return Fail(c.error);
      }
      if hDefaultPixel == 1 {
        region.FillBitmap(0xff);
      }
      assert region.bitmap[..] == InitialRegion(h * RowStride(w), hDefaultPixel == 1);
      assert patterns.value == sources;
      var o := RenderRegion(decodedPlanes);
      r := if o.Success? then Ok(region) else Fail(o.error);
    }

    /** `new Bitmap(w, h)` for the region: all 0, in a buffer apart from those of `sources`. */
    static method AllocateRegion(w: int, h: int, ghost sources: seq<Bitmap>) returns (region: Bitmap)
      requires 0 <= h * RowStride(w)
      ensures fresh(region) && fresh(region.bitmap) && region.Valid() && region.width == w && region.height == h
      ensures region.bitmap[..] == InitialRegion(h * RowStride(w), false)
      ensures forall i :: 0 <= i < |sources| ==> sources[i].bitmap != region.bitmap
    {
      region := new Bitmap(w, h);
      assert region.bitmap[..] == InitialRegion(h * RowStride(w), false);
    }

    /**
     * `if (patterns == null) patterns = getPatterns()`.  Java does this
     * after storing the new region in `halftoneRegionBitmap` and before
     * filling it; when `getPatterns` throws, `patterns` stays unset.
     */
    method CollectPatterns(ds: seq<Result<seq<Bitmap>>>) returns (o: Outcome)
      requires patterns.None? ==> DictionariesValid(ds)
      requires patterns.Some? ==> forall i :: 0 <= i < |patterns.value| ==> patterns.value[i].Valid()
      modifies this`patterns
      ensures patterns == old(PatternsAfter(ds))
      ensures o.Failure? <==> patterns.None?
      ensures o.Failure? ==> o.error == Collected(ds).error
      ensures patterns.Some? ==> |patterns.value| == old(PatternCount(ds))
      ensures patterns.Some? ==> forall i :: 0 <= i < |patterns.value| ==> patterns.value[i].Valid()
    {
      if patterns.None? {
        var collected := GetPatterns(ds);
        if collected.Fail? {
          return Failure(collected.error);
        }
        ghost var lists := Collected(ds).value;
        assert AllValid(lists) by {
          forall d, k | 0 <= d < |lists| && 0 <= k < |lists[d]| ensures lists[d][k].Valid() {
            assert ds[d] == Ok(lists[d]);
          }
        }
        ConcatenatedValid(lists);
        patterns := Some(collected.value);
      }
      o := Success;
    }

    /** Steps 2 to 5 of `getRegionBitmap`, once the region and the patterns are in place. */
    method RenderRegion(decodedPlanes: seq<seq<bv8>>) returns (o: Outcome)
      requires halftoneRegionBitmap != null && halftoneRegionBitmap.Valid() && patterns.Some?
      requires SourcesFit(patterns.value, halftoneRegionBitmap)
      requires PlanesFor(decodedPlanes, |patterns.value|, grid)
      modifies halftoneRegionBitmap.bitmap
      ensures var expected := RegionRendering(old(halftoneRegionBitmap.bitmap[..]),
                                JobOf(halftoneRegionBitmap, patterns.value, grid, hCombinationOperator),
                                hSkipEnabled, decodedPlanes);
        && (o.Success? <==> expected.Ok?) && (o.Failure? ==> o.error == expected.error)
        && (expected.Ok? ==> halftoneRegionBitmap.bitmap[..] == expected.value)
    {
      var ps := patterns.value;
      if hSkipEnabled {
        if |ps| == 0 {
          return Failure(IndexOutOfBounds);
        }
        var hSkip := ComputeHSkip(ps[0].width, ps[0].height);
        if hSkip.Fail? {
          return Failure(hSkip.error);
        }
      }
      var bitsPerValue := BitsPerValue(|ps|);
      var values := GrayScaleDecoding(bitsPerValue, decodedPlanes);
      if values.Fail? {
        return Failure(values.error);
      }
      ghost var planes := BinaryPlanes(PlaneOrder(decodedPlanes), ScanLength(grid.gridWidth, grid.gridHeight));
      ghost var cells := GrayRows(planes, RowStride(grid.gridWidth), bitsPerValue, grid);
      o := RenderPattern(values.value, cells);
    }
  }
}
