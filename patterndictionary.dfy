/**
 * The pattern dictionary segment (section 7.4.4 of ISO/IEC 14492, decoding
 * procedure of section 6.7.5): a small header, the adaptive-template pixels
 * handed to the generic region decoder, and the slicing of the one
 * collective bitmap that decoder returns into `grayMax + 1` patterns of
 * `hdpWidth` x `hdpHeight` pixels.
 *
 * The generic region decoder is not part of this model: its result is a
 * parameter of `GetDictionary`.
 */
module Patterns {
  import opened BitUtil
  import opened BitStream
  import opened PackedBitmap
  import opened Compositing

  // ---------------------------------------------------------------------
  // The header layout
  // ---------------------------------------------------------------------

  /** `readByte() & 0xff`: the signed byte `readByte()` returns, taken back as 0..255. */
  function UnsignedByte(b: int): (r: int)
    requires -128 <= b <= 127
    ensures 0 <= r < 256
    ensures b >= 0 ==> r == b
    ensures b < 0 ==> r == b + 256
  {
    if b < 0 then b + 256 else b
  }

  /** Taking back the signed byte recovers the byte that was read. */
  lemma UnsignedSignedByte(v: int)
    requires 0 <= v < 256
    ensures UnsignedByte(SignedByte(v)) == v
  {
  }

  /**
   * A pattern size as it lands in the `short` field: the signed value of the
   * byte as the code is written, its unsigned value as the standard means it.
   */
  function SizeField(v: nat, unsignedSizes: bool): (r: int)
    requires v < 256
    ensures unsignedSizes ==> r == v
    ensures !unsignedSizes ==> r == SignedByte(v)
  {
    if unsignedSizes then UnsignedByte(SignedByte(v)) else SignedByte(v)
  }

  /** The fields of section 7.4.4.1, and the bit after them. */
  datatype PatternHeader = PatternHeader(hdTemplate: int, isMMREncoded: bool, hdpWidth: int,
                                         hdpHeight: int, grayMax: int, next: nat)

  /**
   * Section 7.4.4.1 from bit `p`: five unused bits, the two-bit template,
   * the MMR bit, then (from the next byte boundary) the width byte, the
   * height byte and the 32-bit largest gray value, kept as a signed `int`.
   * `None` when the stream ends inside it.
   */
  function PatternHeaderAt(bits: seq<bool>, p: nat, unsignedSizes: bool): (r: Option<PatternHeader>)
    ensures r.Some? <==> AlignUp(p + 8) + 48 <= |bits|
    ensures r.Some? ==>
      && 0 <= r.value.hdTemplate < 4 && IsInt32(r.value.grayMax)
      && r.value.next == AlignUp(p + 8) + 48
      && (unsignedSizes ==> 0 <= r.value.hdpWidth < 256 && 0 <= r.value.hdpHeight < 256)
  {
    var q := AlignUp(p + 8);
    if q + 48 <= |bits| then
      Some(PatternHeader(TwoBits(bits, p + 5), bits[p + 7],
                         SizeField(ByteAt(bits, q), unsignedSizes),
                         SizeField(ByteAt(bits, q + 8), unsignedSizes),
                         Int32(WordAt(bits, q + 16)), q + 48))
    else None
  }

  /** `checkInput`: both pattern sizes must be at least 1. */
  function CheckInput(h: PatternHeader): (o: Outcome)
    ensures o == Success <==> 1 <= h.hdpWidth && 1 <= h.hdpHeight
    ensures o.Failure? ==> o.error == InvalidHeaderValue
  {
    if h.hdpHeight < 1 || h.hdpWidth < 1 then Failure(InvalidHeaderValue) else Success
  }

  /** MMR coding with a template other than 0 is only logged: the check never looks at either. */
  lemma CheckInputIgnoresTemplate(h: PatternHeader, template: int, mmr: bool)
    ensures CheckInput(h.(hdTemplate := template, isMMREncoded := mmr)) == CheckInput(h)
  {
  }

  /**
   * As written, a width or height byte of 128 or more is read as a negative
   * `short` and the header is refused, though the standard allows patterns
   * up to 255 pixels; read unsigned, every non-zero size byte is accepted.
   */
  lemma WideSizeRefusedAsWritten(bits: seq<bool>, p: nat)
    requires AlignUp(p + 8) + 48 <= |bits| && ByteAt(bits, AlignUp(p + 8)) >= 128
    ensures PatternHeaderAt(bits, p, false).value.hdpWidth < 0
    ensures CheckInput(PatternHeaderAt(bits, p, false).value) == Failure(InvalidHeaderValue)
    ensures PatternHeaderAt(bits, p, true).value.hdpWidth == ByteAt(bits, AlignUp(p + 8))
  {
  }

  /** Read unsigned, the header is accepted exactly when neither size byte is 0. */
  lemma SizesAcceptedUnsigned(bits: seq<bool>, p: nat)
    requires AlignUp(p + 8) + 48 <= |bits|
    ensures var q := AlignUp(p + 8);
      CheckInput(PatternHeaderAt(bits, p, true).value) == Success
      <==> ByteAt(bits, q) != 0 && ByteAt(bits, q + 8) != 0
  {
  }

  // ---------------------------------------------------------------------
  // Slicing the collective bitmap
  // ---------------------------------------------------------------------

  /** The region of pattern `g`: the `g`-th `w`-pixel column strip, full height. */
  function TileRect(g: int, w: int, h: int): (r: Rectangle)
    ensures r.x == w * g && r.y == 0 && r.width == w && r.height == h
  {
    Rectangle(w * g, 0, w, h)
  }

  /**
   * The region `extractPatterns` asks for pattern `g`: the tile, with its
   * left edge `hdpWidth * gray` computed in 32-bit `int` arithmetic.
   */
  function TileRoi(g: int, w: int, h: int): (r: Rectangle)
    ensures r.x == Wrap32(w * g) && r.y == 0 && r.width == w && r.height == h
  {
    Rectangle(Wrap32(w * g), 0, w, h)
  }

  /** With no overflow in `(grayMax + 1) * w`, the requested region is the tile itself. */
  lemma TileRoiIsTile(g: int, grayMax: int, w: int, h: int)
    requires 1 <= w && 0 <= g <= grayMax && IsInt32((grayMax + 1) * w)
    ensures TileRoi(g, w, h) == TileRect(g, w, h)
  {
    MulMonotone(w, g, grayMax);
    MulSucc(grayMax, w);
    MulMonotone(w, 0, g);
  }

  /** Rows of bytes `lo..hi` stepping by `stride` stay below `len` while the last one does. */
  lemma {:induction false} RowsFitBelow(lo: int, hi: int, rows: int, stride: int, len: int)
    requires 0 <= lo && 0 <= stride && hi + rows * stride < len + stride
    ensures RowsFit(lo, hi, rows, stride, len)
    decreases rows
  {
    if rows > 0 {
      assert (rows - 1) * stride + stride == rows * stride;
      assert stride <= rows * stride;
      RowsFitBelow(lo + stride, hi + stride, rows - 1, stride, len);
    }
  }

  /**
   * Every tile `g <= grayMax` lies inside a collective bitmap `(grayMax + 1)
   * * w` pixels wide and `h` high, so extracting it cannot fail.
   */
  lemma TileFits(g: int, grayMax: int, w: int, h: int, src: seq<bv8>)
    requires 1 <= w && 1 <= h && 0 <= g <= grayMax
    requires |src| == h * RowStride((grayMax + 1) * w)
    ensures ExtractSucceeds(TileRect(g, w, h), src, RowStride((grayMax + 1) * w))
  {
    var stride := RowStride((grayMax + 1) * w);
    var roi := TileRect(g, w, h);
    var s, e := ExtractStart(roi, stride), ExtractEnd(roi, stride);
    TileSpan(g, grayMax, w, s, e);
    MulPositive(h, RowStride(w));
    RowsFitBelow(s, e, h, stride, |src|);
    RowsFitWiden(s, e, h, stride, |src|, ReadLimit(roi, stride, |src|));
  }

  /** Without overflow, the region requested for each pattern can be extracted. */
  lemma TileFitsAsRequested(g: int, grayMax: int, w: int, h: int, src: seq<bv8>)
    requires 1 <= w && 1 <= h && 0 <= g <= grayMax && IsInt32((grayMax + 1) * w)
    requires |src| == h * RowStride((grayMax + 1) * w)
    ensures ExtractSucceeds(TileRoi(g, w, h), src, RowStride((grayMax + 1) * w))
  {
    TileRoiIsTile(g, grayMax, w, h);
    TileFits(g, grayMax, w, h, src);
  }

  /** The bytes of a tile's top row lie in the collective bitmap's top row. */
  lemma TileSpan(g: int, grayMax: int, w: int, s: int, e: int)
    requires 1 <= w && 0 <= g <= grayMax
    requires s == ExtractStart(TileRect(g, w, 1), RowStride((grayMax + 1) * w))
    requires e == ExtractEnd(TileRect(g, w, 1), RowStride((grayMax + 1) * w))
    ensures 0 <= s && e < RowStride((grayMax + 1) * w)
  {
    MulMonotone(w, g, grayMax);
    MulSucc(grayMax, w);
    assert s == (w * g) / 8 && e == (w * g + w - 1) / 8;
    DivMonotone(w * g + w - 1, (grayMax + 1) * w - 1);
  }

  lemma MulMonotone(w: int, a: int, b: int)
    requires 0 <= w && a <= b
    ensures w * a <= w * b
  {
  }

  lemma MulSucc(a: int, w: int)
    ensures (a + 1) * w == w * a + w
  {
  }

  lemma MulPositive(a: int, b: int)
    requires 1 <= a && 1 <= b
    ensures 1 <= a * b
  {
  }

  /**
   * A pattern as `extractPatterns` builds it from the collective bitmap
   * with the given bytes and stride: a `w` x `h` bitmap holding the region
   * requested for pattern `g`.
   */
  ghost predicate IsTile(p: Bitmap, g: int, w: int, h: int, src: seq<bv8>, stride: int)
    reads p, p.bitmap
  {
    && p.Valid() && p.width == w && p.height == h
    && ExtractSucceeds(TileRoi(g, w, h), src, stride)
    && p.bitmap[..] == ExtractBytes(TileRoi(g, w, h), src, stride)
  }

  /** A tile's byte count is never negative, so a failed extraction is an index error. */
  lemma TileAreaNonNegative(w: int, h: int)
    requires 1 <= w && 1 <= h
    ensures h * RowStride(w) >= 0
  {
  }

  /**
   * Pixel (x, y) of pattern `g` is pixel (g * w + x, y) of the collective
   * bitmap (section 6.7.5, step 4a); the pad bits of its rows are 0.
   */
  lemma TilePixels(g: int, grayMax: int, w: int, h: int, src: seq<bv8>, x: int, y: int)
    requires 1 <= w && 1 <= h && 0 <= g <= grayMax
    requires |src| == h * RowStride((grayMax + 1) * w)
    requires 0 <= x < 8 * RowStride(w) && 0 <= y < h
    ensures var stride := RowStride((grayMax + 1) * w);
      && ExtractSucceeds(TileRect(g, w, h), src, stride)
      && var tile := ExtractBytes(TileRect(g, w, h), src, stride);
      && |tile| == h * RowStride(w)
      && (x < w ==>
            && 0 <= ByteIndex(stride, w * g + x, y) < |src|
            && GridPixel(tile, RowStride(w), h, x, y) == PixelOf(src, stride, w * g + x, y))
      && (x >= w ==> GridPixel(tile, RowStride(w), h, x, y) == 0)
  {
    var stride := RowStride((grayMax + 1) * w);
    TileFits(g, grayMax, w, h, src);
    PadStride(w);
    if x < w {
      TileByteInBuffer(g, grayMax, w, h, |src|, x, y);
    }
    ExtractPixels(TileRect(g, w, h), src, stride, x, y);
  }

  /** Every pixel of a tile lies in a byte of the collective bitmap. */
  lemma TileByteInBuffer(g: int, grayMax: int, w: int, h: int, len: int, x: int, y: int)
    requires 1 <= w && 1 <= h && 0 <= g <= grayMax
    requires len == h * RowStride((grayMax + 1) * w)
    requires 0 <= x < w && 0 <= y < h
    ensures 0 <= ByteIndex(RowStride((grayMax + 1) * w), w * g + x, y) < len
  {
    var n := (grayMax + 1) * w;
    MulMonotone(w, g, grayMax);
    MulSucc(grayMax, w);
    MulMonotone(w, 0, g);
    DivMonotone(w * g + x, n - 1);
    ByteInRow(y, h, RowStride(n), (w * g + x) / 8);
  }

  /** Byte `q` of row `y` of `h` rows `stride` bytes long is in the buffer. */
  lemma ByteInRow(y: int, h: int, stride: int, q: int)
    requires 0 <= y < h && 0 <= q < stride
    ensures 0 <= y * stride + q < h * stride
  {
    MulMonotone(stride, y + 1, h);
    MulMonotone(stride, 0, y);
  }


  // ---------------------------------------------------------------------
  // The segment
  // ---------------------------------------------------------------------

  class PatternDictionary {
    var dataHeaderOffset: int
    var dataHeaderLength: int
    var dataOffset: int
    var dataLength: int
    /** `null` until `setGbAtPixels` allocates them. */
    var gbAtX: Option<seq<int>>
    var gbAtY: Option<seq<int>>
    var isMMREncoded: bool
    var hdTemplate: int
    var hdpWidth: int
    var hdpHeight: int
    /** The decoded patterns, `null` until `getDictionary` first runs. */
    var patterns: Option<seq<Bitmap>>
    var grayMax: int

    /** The object before `init`: every field at Java's default. */
    constructor ()
      ensures dataHeaderOffset == 0 && dataHeaderLength == 0 && dataOffset == 0 && dataLength == 0
      ensures gbAtX == None && gbAtY == None && patterns == None
      ensures !isMMREncoded && hdTemplate == 0 && hdpWidth == 0 && hdpHeight == 0 && grayMax == 0
    {
      dataHeaderOffset, dataHeaderLength, dataOffset, dataLength := 0, 0, 0, 0;
      gbAtX, gbAtY, patterns := None, None, None;
      isMMREncoded, hdTemplate, hdpWidth, hdpHeight, grayMax := false, 0, 0, 0, 0;
    }

    /** The header fields a successful `init` leaves. */
    ghost predicate Parsed()
      reads this
    {
      1 <= hdpWidth < 128 && 1 <= hdpHeight < 128 && 0 <= hdTemplate < 4 && IsInt32(grayMax)
    }

    /** Bits 1-2 of the flags: the template. */
    method ReadTemplate(sis: BitReader) returns (o: Outcome)
      modifies this`hdTemplate, sis`pos
      ensures var p := old(sis.pos);
        if p + 2 <= |sis.bits| then
          o == Success && sis.pos == p + 2 && hdTemplate == TwoBits(sis.bits, p)
        else o == Failure(EndOfStream)
    {
      var t := sis.ReadBits(2);
      if t.Fail? { return Failure(t.error); }
      hdTemplate := t.value;
      o := Success;
    }

    /** Bit 0 of the flags: a set bit turns MMR on; a clear one leaves the field as it was. */
    method ReadIsMMREncoded(sis: BitReader) returns (o: Outcome)
      modifies this`isMMREncoded, sis`pos
      ensures var p := old(sis.pos);
        if p < |sis.bits| then
          o == Success && sis.pos == p + 1 && isMMREncoded == (old(isMMREncoded) || sis.bits[p])
        else o == Failure(EndOfStream)
    {
      var b := sis.ReadBit();
      if b.Fail? { return Failure(b.error); }
      if b.value == 1 {
        isMMREncoded := true;
      }
      o := Success;
    }

    /**
     * Sections 7.4.4.1.2 and 7.4.4.1.3: the width and height bytes, stored
     * as the signed values `readByte()` returns (`WideSizeRefusedAsWritten`
     * shows what that costs; `SizesAcceptedUnsigned` the unsigned reading).
     */
    method ReadPatternWidthAndHeight(sis: BitReader) returns (o: Outcome)
      modifies this`hdpWidth, this`hdpHeight, sis`pos
      ensures var q := AlignUp(old(sis.pos));
        if q + 16 <= |sis.bits| then
          && o == Success && sis.pos == q + 16
          && hdpWidth == SignedByte(ByteAt(sis.bits, q)) && hdpHeight == SignedByte(ByteAt(sis.bits, q + 8))
        else o == Failure(EndOfStream)
    {
      var w := sis.ReadByte();
      if w.Fail? { return Failure(w.error); }
      var h := sis.ReadByte();
      if h.Fail? { return Failure(h.error); }
      hdpWidth := w.value;
      hdpHeight := h.value;
      o := Success;
    }

    /** Section 7.4.4.1.4: the largest gray value, 32 bits kept as a signed `int`. */
    method ReadGrayMax(sis: BitReader) returns (o: Outcome)
      modifies this`grayMax, sis`pos
      ensures var p := old(sis.pos);
        if p + 32 <= |sis.bits| then
          o == Success && sis.pos == p + 32 && grayMax == Int32(WordAt(sis.bits, p))
        else o == Failure(EndOfStream)
    {
      var v := sis.ReadBits(32);
      if v.Fail? { return Failure(v.error); }
      grayMax := Int32(v.value);
      o := Success;
    }

    /**
     * `computeSegmentDataStructure`: the data starts at the stream position;
     * it is as long as the stream (in bytes) less the header.
     */
    method ComputeSegmentDataStructure(sis: BitReader)
      modifies this`dataOffset, this`dataHeaderLength, this`dataLength
      ensures dataOffset == sis.pos / 8 && dataHeaderLength == dataOffset - dataHeaderOffset
      ensures dataLength == |sis.bits| / 8 - dataHeaderLength
    {
      dataOffset := sis.StreamPosition();
      dataHeaderLength := dataOffset - dataHeaderOffset;
      dataLength := |sis.bits| / 8 - dataHeaderLength;
    }

    /**
     * `parseHeader`: the header fields, then where the data starts (the
     * stream position) and how long it is (the stream length in bytes, less
     * the header); the checks of `checkInput` come last.
     */
    method ParseHeader(sis: BitReader) returns (o: Outcome)
      modifies this`hdTemplate, this`isMMREncoded, this`hdpWidth, this`hdpHeight, this`grayMax
      modifies this`dataOffset, this`dataHeaderLength, this`dataLength, sis`pos
      ensures PatternHeaderAt(sis.bits, old(sis.pos), false).None? ==> o == Failure(EndOfStream)
      ensures PatternHeaderAt(sis.bits, old(sis.pos), false).Some? ==>
        var h := PatternHeaderAt(sis.bits, old(sis.pos), false).value;
        && o == CheckInput(h) && sis.pos == h.next
        && hdTemplate == h.hdTemplate && isMMREncoded == (old(isMMREncoded) || h.isMMREncoded)
        && hdpWidth == h.hdpWidth && hdpHeight == h.hdpHeight && grayMax == h.grayMax
        && dataOffset == h.next / 8 && dataHeaderLength == dataOffset - dataHeaderOffset
        && dataLength == |sis.bits| / 8 - dataHeaderLength
      ensures o == Success ==> Parsed()
    {
      ghost var p := sis.pos;
      var skipped := sis.ReadBits(5);
      if skipped.Fail? { return Failure(skipped.error); }
      o := ReadTemplate(sis);
      if o.Failure? { return; }
      o := ReadIsMMREncoded(sis);
      if o.Failure? { return; }
      o := ReadPatternWidthAndHeight(sis);
      if o.Failure? { return; }
      o := ReadGrayMax(sis);
      if o.Failure? { return; }
      ComputeSegmentDataStructure(sis);
      o := CheckInput(PatternHeader(hdTemplate, isMMREncoded, hdpWidth, hdpHeight, grayMax, sis.pos));
    }

    /**
     * `setGbAtPixels`: the adaptive-template pixels of the generic region
     * decoding; four for template 0, one for the others, the first always
     * one pattern width to the left.
     */
    method SetGbAtPixels()
      modifies this`gbAtX, this`gbAtY
      ensures hdTemplate == 0 ==> gbAtX == Some([-hdpWidth, -3, 2, -2]) && gbAtY == Some([0, -1, -2, -2])
      ensures hdTemplate != 0 ==> gbAtX == Some([-hdpWidth]) && gbAtY == Some([0])
    {
      if hdTemplate == 0 {
        gbAtX := Some([-hdpWidth, -3, 2, -2]);
        gbAtY := Some([0, -1, -2, -2]);
      } else {
        gbAtX := Some([-hdpWidth]);
        gbAtY := Some([0]);
      }
    }

    /**
     * `extractPatterns`: the list, allocated with room for `grayMax + 1`
     * patterns (Java refuses a negative room), is held at once and filled
     * with patterns 0 to `grayMax` in that order, each the extract of its
     * tile of the collective bitmap.  An extract outside the bitmap ends it,
     * the patterns extracted so far staying held.
     */
    method ExtractPatterns(collective: Bitmap) returns (o: Outcome)
      requires Parsed() && collective.Valid()
      modifies this`patterns
      ensures Wrap32(grayMax + 1) < 0 ==> o == Failure(NegativeSize) && patterns == old(patterns)
      ensures Wrap32(grayMax + 1) >= 0 ==>
        && patterns.Some? && |patterns.value| <= grayMax + 1
        && (forall g :: 0 <= g < |patterns.value| ==>
              fresh(patterns.value[g].bitmap)
              && IsTile(patterns.value[g], g, hdpWidth, hdpHeight, collective.bitmap[..], collective.rowStride))
        && (o.Success? ==> |patterns.value| == grayMax + 1)
        && (o.Failure? ==>
              && o.error == IndexOutOfBounds && |patterns.value| <= grayMax
              && !ExtractSucceeds(TileRoi(|patterns.value|, hdpWidth, hdpHeight),
                                  collective.bitmap[..], collective.rowStride))
    {
      var w, h := hdpWidth, hdpHeight;
      if Wrap32(grayMax + 1) < 0 {
        return Failure(NegativeSize);
      }
      ghost var src, stride := collective.bitmap[..], collective.rowStride;
      var gray := 0;
      var ps: seq<Bitmap> := [];
      patterns := Some(ps);
      while gray <= grayMax
        invariant 0 <= gray <= grayMax + 1 && |ps| == gray && patterns == Some(ps)
        invariant forall g :: 0 <= g < gray ==> fresh(ps[g].bitmap) && IsTile(ps[g], g, w, h, src, stride)
        decreases grayMax - gray
      {
        var tile := Extract(TileRoi(gray, w, h), collective);
        if tile.Fail? {
          TileAreaNonNegative(w, h);
          return Failure(tile.error);
        }
        assert IsTile(tile.value, gray, w, h, src, stride);
        ps := ps + [tile.value];
        patterns := Some(ps);
        gray := gray + 1;
      }
      o := Success;
    }

    /**
     * `getDictionary`: the held patterns if there are any; otherwise the
     * adaptive-template pixels (unless MMR), the collective bitmap of
     * `(grayMax + 1) * hdpWidth` x `hdpHeight` pixels, that width computed
     * in 32-bit `int` arithmetic, from the generic region decoder
     * (`decoded`), and `extractPatterns` on it.  When the width does not
     * overflow, every pattern is extracted.
     */
    method GetDictionary(decoded: Result<Bitmap>) returns (r: Result<seq<Bitmap>>)
      requires Parsed()
      requires decoded.Ok? ==>
        && decoded.value.Valid() && decoded.value.height == hdpHeight
        && decoded.value.width == Wrap32((grayMax + 1) * hdpWidth)
      modifies this`patterns, this`gbAtX, this`gbAtY
      ensures old(patterns).Some? ==>
        r == Ok(old(patterns).value) && patterns == old(patterns)
        && gbAtX == old(gbAtX) && gbAtY == old(gbAtY)
      ensures old(patterns).None? && isMMREncoded ==> gbAtX == old(gbAtX) && gbAtY == old(gbAtY)
      ensures old(patterns).None? && !isMMREncoded ==> gbAtX.Some? && |gbAtX.value| == (if hdTemplate == 0 then 4 else 1)
      ensures old(patterns).None? && decoded.Fail? ==> r == Fail(decoded.error) && patterns == None
      ensures old(patterns).None? && decoded.Ok? && Wrap32(grayMax + 1) < 0 ==>
        r == Fail(NegativeSize) && patterns == None
      ensures old(patterns).None? && decoded.Ok? && Wrap32(grayMax + 1) >= 0 ==>
        && patterns.Some? && |patterns.value| <= grayMax + 1
        && (forall g :: 0 <= g < |patterns.value| ==>
              IsTile(patterns.value[g], g, hdpWidth, hdpHeight, decoded.value.bitmap[..], decoded.value.rowStride))
        && (r.Ok? ==> r.value == patterns.value && |r.value| == grayMax + 1)
        && (r.Fail? ==> r.error == IndexOutOfBounds && |patterns.value| <= grayMax)
      ensures old(patterns).None? && decoded.Ok? && -1 <= grayMax && IsInt32((grayMax + 1) * hdpWidth) ==> r.Ok?
    {
      if patterns.Some? {
        return Ok(patterns.value);
      }
      if !isMMREncoded {
        SetGbAtPixels();
      }
      if decoded.Fail? {
        return Fail(decoded.error);
      }
      var o := ExtractPatterns(decoded.value);
      if o.Failure? {
        if Wrap32(grayMax + 1) >= 0 && IsInt32((grayMax + 1) * hdpWidth) {
          TileFitsAsRequested(|patterns.value|, grayMax, hdpWidth, hdpHeight, decoded.value.bitmap[..]);
        }
        return Fail(o.error);
      }
      r := Ok(patterns.value);
    }
  }
}
