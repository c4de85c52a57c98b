/**
 * The packed 1-bit-per-pixel raster of Bitmap.java.
 *
 * Row `y` occupies bytes `y*rowStride .. y*rowStride+rowStride-1`, where
 * `rowStride == (width+7)>>3`; within a byte the most significant bit is the
 * leftmost pixel.  The bits of the last byte of a row beyond `width` are pad
 * bits.  The value-level functions below (`ByteIndex`, `PixelOf`,
 * `WithPixelSet`) describe a raster held as a byte sequence; the class methods
 * are stated in their terms.
 */
module PackedBitmap {
  import opened BitUtil
  import opened Bits

  /** `(width + 7) >> 3`: bytes per row. */
  function RowStride(width: int): int
  {
    (width + 7) / 8
  }

  /** `y * rowStride + (x >> 3)`: the byte holding pixel (x, y). */
  function ByteIndex(stride: int, x: int, y: int): int
  {
    y * stride + x / 8
  }

  /** Pixel (x, y) of a raster held as bytes: bit `7 - (x & 7)` of its byte. */
  function PixelOf(bytes: seq<bv8>, stride: int, x: int, y: int): bv8
    requires 0 <= ByteIndex(stride, x, y) < |bytes|
  {
    BitAt(bytes[ByteIndex(stride, x, y)], Offset(x))
  }

  /**
   * A pixel of a `height`-row raster, for positions of the grid including the
   * pad bits of each row (`x < 8 * stride`).
   */
  function GridPixel(bytes: seq<bv8>, stride: int, height: int, x: int, y: int): bv8
    requires |bytes| == height * stride
    requires 0 <= x < 8 * stride && 0 <= y < height
  {
    ByteIndexInGrid(stride, height, x, y);
    PixelOf(bytes, stride, x, y)
  }

  /** Every pixel position of a row, pad bits included, has its byte in the raster. */
  lemma ByteIndexInGrid(stride: int, height: int, x: int, y: int)
    requires 0 <= x < 8 * stride && 0 <= y < height
    ensures 0 <= ByteIndex(stride, x, y) < height * stride
    ensures ByteIndex(stride, x, y) - y * stride == x / 8
  {
    assert x / 8 < stride;
    assert y * stride + stride == (y + 1) * stride;
    assert (y + 1) * stride <= height * stride by {
      MulMonotone(y + 1, height, stride);
    }
  }

  /** A grid pixel read through its row offset `d` (`y * stride`) and byte `k` (`x / 8`). */
  lemma GridPixelAt(bytes: seq<bv8>, stride: int, height: int, x: int, y: int, d: int, k: int)
    requires |bytes| == height * stride
    requires 0 <= x < 8 * stride && 0 <= y < height && d == y * stride && k == x / 8
    ensures 0 <= d + k < |bytes| && GridPixel(bytes, stride, height, x, y) == BitAt(bytes[d + k], Offset(x))
  {
    ByteIndexInGrid(stride, height, x, y);
  }

  lemma MulMonotone(a: int, b: int, c: int)
    requires a <= b && 0 <= c
    ensures a * c <= b * c
  {
  }

  /** Distinct pixel positions of the grid have distinct (byte, bit) addresses. */
  lemma ByteIndexInjective(stride: int, x1: int, y1: int, x2: int, y2: int)
    requires 0 <= x1 < 8 * stride && 0 <= y1
    requires 0 <= x2 < 8 * stride && 0 <= y2
    requires ByteIndex(stride, x1, y1) == ByteIndex(stride, x2, y2)
    ensures y1 == y2 && x1 / 8 == x2 / 8
  {
    MulSub(y1, y2, stride);
    var d := (y1 - y2) * stride;
    assert d == x2 / 8 - x1 / 8;
    assert d < 1 * stride;
    MulCancel(y1 - y2, 1, stride);
    MulSub(y2, y1, stride);
    assert (y2 - y1) * stride < 1 * stride;
    MulCancel(y2 - y1, 1, stride);
  }

  lemma MulSub(a: int, b: int, c: int)
    ensures a * c - b * c == (a - b) * c
  {
  }

  lemma MulCancel(a: int, b: int, c: int)
    requires c > 0 && a * c < b * c
    ensures a < b
  {
  }

  /** The bytes after `setPixel(x, y, 1)`. */
  function WithPixelSet(bytes: seq<bv8>, stride: int, height: int, x: int, y: int): (r: seq<bv8>)
    requires |bytes| == height * stride
    requires 0 <= x < 8 * stride && 0 <= y < height
    ensures |r| == |bytes|
    ensures forall i :: 0 <= i < |r| && i != ByteIndex(stride, x, y) ==> r[i] == bytes[i]
  {
    ByteIndexInGrid(stride, height, x, y);
    var i := ByteIndex(stride, x, y);
    bytes[i := OrPixel(bytes[i], 1, Offset(x))]
  }

  /** `(byte) (v | (pixelValue << (7 - offset)))`, the update `setPixel` makes. */
  function OrPixel(v: bv8, pixelValue: bv8, offset: bv8): bv8
    requires offset < 8
  {
    v | (pixelValue << (7 - offset))
  }

  /** Setting a pixel makes it 1 and changes no other pixel of the grid. */
  lemma WithPixelSetPixels(bytes: seq<bv8>, stride: int, height: int, x: int, y: int, a: int, b: int)
    requires |bytes| == height * stride
    requires 0 <= x < 8 * stride && 0 <= y < height
    requires 0 <= a < 8 * stride && 0 <= b < height
    ensures GridPixel(WithPixelSet(bytes, stride, height, x, y), stride, height, a, b)
      == if a == x && b == y then 1 else GridPixel(bytes, stride, height, a, b)
  {
    ByteIndexInGrid(stride, height, x, y);
    ByteIndexInGrid(stride, height, a, b);
    var i, j := ByteIndex(stride, x, y), ByteIndex(stride, a, b);
    var r := WithPixelSet(bytes, stride, height, x, y);
    assert GridPixel(r, stride, height, a, b) == BitAt(r[j], Offset(a));
    assert GridPixel(bytes, stride, height, a, b) == BitAt(bytes[j], Offset(a));
    if i == j {
      ByteIndexInjective(stride, x, y, a, b);
      assert r[j] == OrPixel(bytes[i], 1, Offset(x));
      assert a == x <==> Offset(x) == Offset(a);
      OrMaskBit(bytes[i], Offset(x), Offset(a));
    } else {
      assert r[j] == bytes[j];
    }
  }

  /** The byte `setPixel` writes keeps every set bit and, for value 1, sets the pixel. */
  lemma SetPixelByte(src: bv8, pixelValue: bv8, offset: bv8)
    requires offset < 8
    ensures src & OrPixel(src, pixelValue, offset) == src
    ensures pixelValue == 1 ==> BitAt(OrPixel(src, pixelValue, offset), offset) == 1
  {
  }

  class Bitmap {
    const width: int
    const height: int
    const rowStride: int
    const bitmap: array<bv8>

    ghost predicate Valid()
    {
      rowStride == RowStride(width) && bitmap.Length == height * rowStride
    }

    /**
     * `new Bitmap(width, height)`: an all-zero raster.  Java allocates
     * `height * rowStride` bytes and throws when that count is negative.
     */
    constructor (width: int, height: int)
      requires 0 <= height * RowStride(width)
      ensures Valid() && this.width == width && this.height == height
      ensures rowStride == (width + 7) / 8
      ensures fresh(bitmap) && bitmap.Length == height * rowStride
      ensures forall i :: 0 <= i < bitmap.Length ==> bitmap[i] == 0
    {
      this.width := width;
      this.height := height;
      rowStride := RowStride(width);
      bitmap := new bv8[height * RowStride(width)](_ => 0);
    }

    /** `getByteIndex(x, y)`: in range for every pixel of the bitmap. */
    function GetByteIndex(x: int, y: int): (r: int)
      requires Valid()
      ensures 0 <= x < width && 0 <= y < height ==>
        0 <= r < bitmap.Length && r - y * rowStride == x / 8
    {
      if 0 <= x < width && 0 <= y < height then
        ByteIndexInGrid(rowStride, height, x, y);
        ByteIndex(rowStride, x, y)
      else
        ByteIndex(rowStride, x, y)
    }

    /** `getBitOffset(x)`: `x & 7`, the position of pixel `x` within its byte. */
    function GetBitOffset(x: int): (r: int)
      ensures 0 <= r < 8 && (x - r) % 8 == 0 && r == Offset(x) as int
    {
      x % 8
    }

    /** `getPixel(x, y)`: bit `7 - (x & 7)` of the containing byte, 0 or 1. */
    function GetPixel(x: int, y: int): (r: bv8)
      reads bitmap
      requires Valid() && 0 <= GetByteIndex(x, y) < bitmap.Length
      ensures r == 0 || r == 1
      ensures r == PixelOf(bitmap[..], rowStride, x, y)
    {
      BitAtBinary(bitmap[GetByteIndex(x, y)], Offset(x));
      BitAt(bitmap[GetByteIndex(x, y)], Offset(x))
    }

    /**
     * `setPixel(x, y, v)`: ORs `v << (7 - (x & 7))` into the addressed byte.
     * It never clears a bit and changes no other byte.
     */
    method SetPixel(x: int, y: int, pixelValue: bv8)
      requires Valid() && 0 <= GetByteIndex(x, y) < bitmap.Length
      modifies bitmap
      ensures bitmap[..] == old(bitmap[..])[GetByteIndex(x, y) :=
        OrPixel(old(bitmap[GetByteIndex(x, y)]), pixelValue, Offset(x))]
      ensures old(bitmap[GetByteIndex(x, y)]) & bitmap[GetByteIndex(x, y)]
        == old(bitmap[GetByteIndex(x, y)])
      ensures pixelValue == 1 ==> GetPixel(x, y) == 1
      ensures pixelValue == 0 ==> bitmap[..] == old(bitmap[..])
      ensures pixelValue == 1 && 0 <= x < width && 0 <= y < height ==>
        bitmap[..] == WithPixelSet(old(bitmap[..]), rowStride, height, x, y)
    {
      var byteIndex := GetByteIndex(x, y);
      var bitOffset := Offset(x);
      var src := bitmap[byteIndex];
      var result := OrPixel(src, pixelValue, bitOffset);
      SetPixelByte(src, pixelValue, bitOffset);
      bitmap[byteIndex] := result;
      if pixelValue == 1 && 0 <= x < width && 0 <= y < height {
        assert bitmap[..] == WithPixelSet(old(bitmap[..]), rowStride, height, x, y);
      }
    }

    /** `getByte(index)`, read as an unsigned value by `getByteAsInteger`. */
    function GetByteAsInteger(index: int): (r: int)
      reads bitmap
      requires 0 <= index < bitmap.Length
      ensures 0 <= r < 256 && r == bitmap[index] as int
      ensures SignedByte(bitmap[index] as int) == (if r < 128 then r else r - 256)
    {
      bitmap[index] as int
    }

    /** `setByte(index, value)`. */
    method SetByte(index: int, value: bv8)
      requires 0 <= index < bitmap.Length
      modifies bitmap
      ensures bitmap[..] == old(bitmap[..])[index := value]
    {
      bitmap[index] := value;
    }

    /** `fillBitmap(fillByte)`: every byte becomes `fillByte`; the length stays. */
    method FillBitmap(fillByte: bv8)
      modifies bitmap
      ensures forall i :: 0 <= i < bitmap.Length ==> bitmap[i] == fillByte
    {
      forall i | 0 <= i < bitmap.Length {
        bitmap[i] := fillByte;
      }
    }

    /** `getLength()`: the buffer is exactly `height * rowStride` bytes. */
    function GetLength(): (r: int)
      requires Valid()
      ensures r == height * rowStride
    {
      bitmap.Length
    }

    /** `getMemorySize()`: the same count as `getLength()`. */
    function GetMemorySize(): (r: int)
      requires Valid()
      ensures r == height * rowStride && r == GetLength()
    {
      bitmap.Length
    }

    /**
     * `equals(o)`: holds exactly when `o` is a bitmap with the same bytes;
     * width and height take no part.
     */
    function Equals(other: Bitmap?): (r: bool)
      reads bitmap, if other != null then {other.bitmap} else {}
      ensures r <==> other != null && bitmap[..] == other.bitmap[..]
    {
      other != null && bitmap[..] == other.bitmap[..]
    }

    /**
     * `arraycopy(srcPos, dst, dstPos, length)`: `System.arraycopy` between the
     * buffers, which behaves as if through a temporary copy when they overlap.
     */
    static method Arraycopy(src: Bitmap, srcPos: int, dest: Bitmap, destPos: int, length: int)
      requires 0 <= srcPos && 0 <= destPos && 0 <= length
      requires srcPos + length <= src.bitmap.Length && destPos + length <= dest.bitmap.Length
      modifies dest.bitmap
      ensures dest.bitmap[..] == old(dest.bitmap[..destPos])
        + old(src.bitmap[srcPos..srcPos + length]) + old(dest.bitmap[destPos + length..])
    {
      var copied := src.bitmap[srcPos..srcPos + length];
      forall i | destPos <= i < destPos + length {
        dest.bitmap[i] := copied[i - destPos];
      }
    }
  }

  /** A region buffer of `length` bytes, every pixel 1 when `fill` holds and 0 otherwise. */
  function InitialRegion(length: int, fill: bool): (r: seq<bv8>)
    requires length >= 0
    ensures |r| == length && forall i :: 0 <= i < length ==> r[i] == (if fill then 0xff else 0)
  {
    seq(length, _ => if fill then 0xff else 0)
  }
}
