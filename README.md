# A verified model of the pdfbox-jbig2 decoding core

This project is a Dafny model of the bit-exact core of Apache PDFBox's JBIG2
decoder (ITU-T T.88 / ISO/IEC 14492). It covers six parts:

- the packed 1-bit-per-pixel `Bitmap`;
- the compositing primitives of `Bitmaps`: combination operators, `unpad`,
  `extract`/`copyLine`, the `subsample` family, and `blit` with its three copy
  routines;
- the segment header parser;
- the pattern dictionary;
- the halftone region;
- the text region.

Objects whose fields the Java code assigns are Dafny classes with those fields.
Their methods carry `modifies` clauses, and their loops carry invariants
against specification functions. Pure helpers are functions and lemmas.

The decoders the core calls are not modelled. These are the arithmetic and
integer decoders, the Huffman tables, and the generic, generic-refinement and
symbol-dictionary decoders. What they return is passed to the methods as
parameters:

- decoded bitmaps;
- a sequence of decoded integers consumed in the order Java asks for them;
- the patterns, or the error, each referred dictionary yields.

The bit stream is the class `BitStream.BitReader`. It holds a sequence of bits
and a cursor, and `readBits(k)` reads the most significant bit first. It models
the JDK image input stream the sources read from. That stream is not part of
the repository, so none of its members has a row below.

The main path follows the Java code as written, including its mistakes. Where
the code departs from what the standard evidently intends, the intended
behaviour is modelled beside it, and both halves are listed under
"## Findings".

Integers are unbounded. Java's 32-bit `int` arithmetic is written out with
`Wrap32`/`Int32` wherever the code relies on it: segment numbers, grid
coordinates, `grayMax + 1`, `(grayMax + 1) * hdpWidth` and the refinement
sizes. Bytes are `bv8`.

The modules, one per file, follow the Java classes (`src/main/java/org/apache/pdfbox/jbig2/…`):

| module | file | Java |
|---|---|---|
| `BitUtil`, `Bits` | bitutil.dfy, bits.dfy | Java `int`/`byte` arithmetic, pixel bits of a byte |
| `BitStream` | bitstream.dfy | the JDK stream the readers use |
| `PackedBitmap` | bitmap.dfy | Bitmap.java |
| `Compositing`, `Blitting`, `BlitPixels`, `Subsampling` | compositing.dfy, blitting.dfy, blitpixels.dfy, subsampling.dfy | image/Bitmaps.java |
| `Segments` | segmentheader.dfy | SegmentHeader.java |
| `Patterns` | patterndictionary.dfy | segments/PatternDictionary.java |
| `Halftone` | halftoneregion.dfy | segments/HalftoneRegion.java |
| `Text` | textregion.dfy | segments/TextRegion.java |

## Model

| member | source | states |
|---|---|---|
| BitUtil.Int32 | src/main/java/org/apache/pdfbox/jbig2/SegmentHeader.java:138-142 | the `(int)` cast of 32 unsigned bits is an `int`, equal to the value below 2^31 and congruent to it modulo 2^32 always |
| BitUtil.SignedByte | src/main/java/org/apache/pdfbox/jbig2/segments/PatternDictionary.java:108-112 | a byte from `readByte()` lies in -128..127 and agrees with the unsigned byte modulo 256 |
| BitUtil.JavaDiv | src/main/java/org/apache/pdfbox/jbig2/image/Bitmaps.java:398-429 | Java's `/` truncates toward zero: for a >= 0 the quotient r has r * b <= a < r * b + b; for a < 0 it is at most 0 and a <= r * b < a + b, so the remainder keeps a's sign |
| BitUtil.CeilLog2 | src/main/java/org/apache/pdfbox/jbig2/segments/TextRegion.java:285 | for n >= 1, the least r with n <= 2^r, so 2^(r-1) < n |
| BitUtil.CeilLog2Unique | src/main/java/org/apache/pdfbox/jbig2/segments/HalftoneRegion.java:185 | any r with 2^(r-1) < n <= 2^r is `CeilLog2(n)` |
| BitUtil.BitsPerValue | src/main/java/org/apache/pdfbox/jbig2/segments/HalftoneRegion.java:185 | `(int) Math.ceil(log(count)/log(2))`: for count 0 the cast of negative infinity, `Integer.MIN_VALUE`; otherwise the least r with count <= 2^r |
| BitUtil.Wrap32 | src/main/java/org/apache/pdfbox/jbig2/segments/PatternDictionary.java:161-163 | 32-bit `int` arithmetic: the result is an `int` and is the exact value wherever that fits |
| BitUtil.Wrap32Congruent | src/main/java/org/apache/pdfbox/jbig2/segments/HalftoneRegion.java:342-350 | the wrapped value differs from the exact one by a multiple of 2^32 |
| BitUtil.BitsValueBound | src/main/java/org/apache/pdfbox/jbig2/SegmentHeader.java:294-298 | k bits read MSB first give a value below 2^k |
| BitUtil.ToBitsBitsValue | src/main/java/org/apache/pdfbox/jbig2/SegmentHeader.java:138-142 | encoding the value of k bits gives back the bits |
| BitUtil.BitsValueToBits | src/main/java/org/apache/pdfbox/jbig2/SegmentHeader.java:138-142 | reading the k-bit encoding of v < 2^k gives back v |
| BitUtil.BitsValueAppend | src/main/java/org/apache/pdfbox/jbig2/SegmentHeader.java:99-130 | reading a + b bits is reading a bits, then b more |
| Bits.Offset | src/main/java/org/apache/pdfbox/jbig2/Bitmap.java:165-170 | `x & 7` lies in 0..7 and is x's remainder modulo 8 |
| Bits.BitAtBinary | src/main/java/org/apache/pdfbox/jbig2/Bitmap.java:69-76 | every pixel of a byte is 0 or 1 |
| Bits.ByteFromBits | src/main/java/org/apache/pdfbox/jbig2/Bitmap.java:241-250 | two bytes are equal exactly when their eight pixels are |
| PackedBitmap.ByteIndexInGrid | src/main/java/org/apache/pdfbox/jbig2/Bitmap.java:99-102 | every pixel position of a row, pad bits included, has its byte inside the `height * rowStride` buffer |
| PackedBitmap.ByteIndexInjective | src/main/java/org/apache/pdfbox/jbig2/Bitmap.java:99-102 | distinct pixel positions have distinct (byte, bit) addresses |
| PackedBitmap.WithPixelSet | src/main/java/org/apache/pdfbox/jbig2/Bitmap.java:78-88 | the bytes after `setPixel` have the same length, and every byte but the addressed one is unchanged |
| PackedBitmap.WithPixelSetPixels | src/main/java/org/apache/pdfbox/jbig2/Bitmap.java:78-88 | after `setPixel(x, y, 1)` pixel (x, y) is 1 and every other pixel of the grid keeps its value |
| PackedBitmap.SetPixelByte | src/main/java/org/apache/pdfbox/jbig2/Bitmap.java:78-88 | the written byte keeps every bit that was set and, for value 1, sets the pixel's bit |
| PackedBitmap.Bitmap.constructor | src/main/java/org/apache/pdfbox/jbig2/Bitmap.java:50-57 | the new bitmap has the given size, `rowStride == (width + 7) >> 3`, and a fresh buffer of exactly `height * rowStride` zero bytes |
| PackedBitmap.Bitmap.GetByteIndex | src/main/java/org/apache/pdfbox/jbig2/Bitmap.java:99-102 | for a pixel of the bitmap the index lies below `getLength()` |
| PackedBitmap.Bitmap.GetBitOffset | src/main/java/org/apache/pdfbox/jbig2/Bitmap.java:165-170 | the offset lies in 0..7 and is x's remainder modulo 8 |
| PackedBitmap.Bitmap.GetPixel | src/main/java/org/apache/pdfbox/jbig2/Bitmap.java:69-76 | the pixel is 0 or 1, and is bit `7 - (x & 7)` of the byte holding (x, y) |
| PackedBitmap.Bitmap.SetPixel | src/main/java/org/apache/pdfbox/jbig2/Bitmap.java:78-88 | the buffer becomes `WithPixelSet(...)`: only the addressed byte changes, no bit is cleared, for value 1 the pixel reads 1, and for value 0 the buffer is unchanged |
| PackedBitmap.Bitmap.GetByteAsInteger | src/main/java/org/apache/pdfbox/jbig2/Bitmap.java:153-156 | the byte at the index read as an unsigned value in 0..255 |
| PackedBitmap.Bitmap.SetByte | src/main/java/org/apache/pdfbox/jbig2/Bitmap.java:139-142 | the byte at the index becomes the value and no other byte changes |
| PackedBitmap.Bitmap.FillBitmap | src/main/java/org/apache/pdfbox/jbig2/Bitmap.java:235-238 | every byte becomes the fill byte and the length stays |
| PackedBitmap.Bitmap.GetLength | src/main/java/org/apache/pdfbox/jbig2/Bitmap.java:225-228 | the buffer length, which is `height * rowStride` |
| PackedBitmap.Bitmap.GetMemorySize | src/main/java/org/apache/pdfbox/jbig2/Bitmap.java:215-218 | the same count as `getLength()`, `height * rowStride` |
| PackedBitmap.Bitmap.Equals | src/main/java/org/apache/pdfbox/jbig2/Bitmap.java:241-250 | true exactly when the other object is a bitmap with equal bytes; width and height take no part |
| PackedBitmap.Bitmap.Arraycopy | src/main/java/org/apache/pdfbox/jbig2/Bitmap.java:261-264 | the destination range receives the old source range, as if through a temporary copy; every other destination byte is unchanged |
| PackedBitmap.InitialRegion | src/main/java/org/apache/pdfbox/jbig2/segments/HalftoneRegion.java:161-172 | a region buffer of the given length whose every pixel is 1 when filled and 0 otherwise |
| Compositing.OperatorFromCode | src/main/java/org/apache/pdfbox/jbig2/segments/HalftoneRegion.java:106-107 | codes 0..3 name OR, AND, XOR and XNOR, and every other code is REPLACE; code 2 is XOR exactly |
| Compositing.CombineBytesPixels | src/main/java/org/apache/pdfbox/jbig2/image/Bitmaps.java:491-509 | `combineBytes(old, new, op)` combines each of the eight pixels by the operator's pixel rule |
| Compositing.OrRule | src/main/java/org/apache/pdfbox/jbig2/image/Bitmaps.java:496-497 | OR gives 1 exactly when either pixel is 1 |
| Compositing.AndRule | src/main/java/org/apache/pdfbox/jbig2/image/Bitmaps.java:498-499 | AND gives 1 exactly when both pixels are 1 |
| Compositing.XorRule | src/main/java/org/apache/pdfbox/jbig2/image/Bitmaps.java:500-501 | XOR gives 1 exactly when the pixels differ |
| Compositing.XnorRule | src/main/java/org/apache/pdfbox/jbig2/image/Bitmaps.java:502-503 | XNOR gives 1 exactly when the pixels agree |
| Compositing.XorSelfInverse | src/main/java/org/apache/pdfbox/jbig2/image/Bitmaps.java:500-501 | XOR-combining the same byte twice gives back the old byte |
| Compositing.CombineZero | src/main/java/org/apache/pdfbox/jbig2/image/Bitmaps.java:496-501 | a zero new byte leaves the old byte unchanged under OR and XOR |
| Compositing.UnpadPixels | src/main/java/org/apache/pdfbox/jbig2/image/Bitmaps.java:393-396 | `unpad(p, v)` keeps the leftmost `8 - p` pixels of v and clears the last p |
| Compositing.PadBits | src/main/java/org/apache/pdfbox/jbig2/image/Bitmaps.java:307 | the pad bits of a row's last byte lie in 0..7 and, with the pixels, fill the row's bytes exactly |
| Compositing.CopyLineByteAt | src/main/java/org/apache/pdfbox/jbig2/image/Bitmaps.java:350-384 | each byte copyLine writes joins a source byte to the head of the next one; the last is unpadded, or is the tail byte when the row needs one more |
| Compositing.WithZeroTail | src/main/java/org/apache/pdfbox/jbig2/image/Bitmaps.java:378-382 | the source bytes followed by one 0 byte: the byte copyLine joins to the buffer's last byte |
| Compositing.ExtractSpan | src/main/java/org/apache/pdfbox/jbig2/image/Bitmaps.java:307-310 | the span of source bytes a row reads: one byte when it fits the first, the stride or one more otherwise |
| Compositing.ExtractLineLength | src/main/java/org/apache/pdfbox/jbig2/image/Bitmaps.java:317-343 | every row the extract loop writes is exactly one destination stride long |
| Compositing.ExtractBytes | src/main/java/org/apache/pdfbox/jbig2/image/Bitmaps.java:299-348 | the destination buffer extract builds has exactly `roi.height * rowStride` bytes |
| Compositing.ExtractPixels | src/main/java/org/apache/pdfbox/jbig2/image/Bitmaps.java:299-348 | pixel (i, j) of the extract is source pixel (roi.x + i, roi.y + j); it is 0 past the end of the source buffer and in the pad bits |
| Compositing.ExtractAtBufferEnd | src/main/java/org/apache/pdfbox/jbig2/image/Bitmaps.java:378-382 | an unaligned 8-pixel strip cut from a one-byte source succeeds and is that byte shifted up, not unpadded |
| Compositing.CopyLine | src/main/java/org/apache/pdfbox/jbig2/image/Bitmaps.java:350-384 | the row's destination bytes become `CopyLineBytes(...)`, the buffer-end byte included, and no other byte changes |
| Compositing.CopyAlignedLine | src/main/java/org/apache/pdfbox/jbig2/image/Bitmaps.java:322-334 | a byte-aligned row is copied as it is, with its last byte unpadded when padding is on; no other byte changes |
| Compositing.ExtractRowInto | src/main/java/org/apache/pdfbox/jbig2/image/Bitmaps.java:317-340 | one pass of the row loop writes exactly that row's `ExtractLine` bytes at the target offset |
| Compositing.ExtractRowsInto | src/main/java/org/apache/pdfbox/jbig2/image/Bitmaps.java:317-347 | after the row loop the destination holds `ExtractRows(...)`, the rows one after another, and the zeros after them |
| Compositing.Extract | src/main/java/org/apache/pdfbox/jbig2/image/Bitmaps.java:299-348 | succeeds exactly when `ExtractSucceeds`; a negative size raises `NegativeSize` and a row outside the buffer raises `IndexOutOfBounds`; on success the bitmap is fresh, `roi.width` x `roi.height`, holding `ExtractBytes` |
| Blitting.PlanFor | src/main/java/org/apache/pdfbox/jbig2/image/Bitmaps.java:522-564 | the destination origin clamped to 0, the bit shift `x % 8` and tail padding `srcWidth % 8`, the destination start byte of `(x, y)`, the last row `min(srcHeight, startLine + dstHeight)`; the unshifted routine exactly when `x % 8 == 0`, the special-shifted one exactly when the source row fits the shifted byte span |
| Blitting.PlanAsWritten | src/main/java/org/apache/pdfbox/jbig2/image/Bitmaps.java:541-547 | the clipping as written: when y < 0 the source start moves down exactly one row, whatever y is |
| Blitting.Plan | src/main/java/org/apache/pdfbox/jbig2/image/Bitmaps.java:541-547 | the intended clipping: when y < 0 the source start moves down the `-y` hidden rows |
| Blitting.PlanSkipsOneRow | src/main/java/org/apache/pdfbox/jbig2/image/Bitmaps.java:541-547 | for an 8 x 3 source at (0, -2) on an 8 x 1 destination, the written plan reads source byte 1 where the intended plan reads byte 2 |
| Blitting.PlanInside | src/main/java/org/apache/pdfbox/jbig2/image/Bitmaps.java:522-562 | a placement inside the destination is not clipped: every source row and byte is used, written from the byte of (x, y) on, in the mode chosen from x & 7 |
| Blitting.ModeOfPlan | src/main/java/org/apache/pdfbox/jbig2/image/Bitmaps.java:553-580 | for every placement the routine blit picks gets a shift it handles: below 8, and zero exactly for the unshifted routine |
| Blitting.CombineIntoAt | src/main/java/org/apache/pdfbox/jbig2/image/Bitmaps.java:583-604 | inside a row's window each byte is combined with its row byte; outside it is unchanged |
| Blitting.WrittenStep | src/main/java/org/apache/pdfbox/jbig2/image/Bitmaps.java:589-600 | combining one more byte in the routines' order extends the combined prefix of the row |
| Blitting.WrittenAll | src/main/java/org/apache/pdfbox/jbig2/image/Bitmaps.java:589-600 | after the last byte the whole row is combined |
| Blitting.RegisterByte | src/main/java/org/apache/pdfbox/jbig2/image/Bitmaps.java:621-622 | `(byte) (register >> 8)` after loading is the byte joined from the previous and the current source byte |
| Blitting.RegisterTail | src/main/java/org/apache/pdfbox/jbig2/image/Bitmaps.java:659 | `(byte) (register >> (8 - shiftVal2))` at the end of a row is the last source byte's remaining bits |
| Blitting.ShiftIn | src/main/java/org/apache/pdfbox/jbig2/image/Bitmaps.java:620-630 | the written byte is the joined byte, and the register's high half keeps the loaded byte |
| Blitting.ShiftOut | src/main/java/org/apache/pdfbox/jbig2/image/Bitmaps.java:657-664 | the byte out of the register holds the bits of the last byte not yet written |
| Blitting.UnshiftedRow | src/main/java/org/apache/pdfbox/jbig2/image/Bitmaps.java:589-600 | one row: the destination becomes the old one with the source bytes combined in byte for byte; none when the row is empty |
| Blitting.BlitUnshifted | src/main/java/org/apache/pdfbox/jbig2/image/Bitmaps.java:583-604 | the destination becomes `BlitLines` of the unshifted rows over `lastLine - startLine` rows, each index advancing by its row stride |
| Blitting.SpecialShiftedRow | src/main/java/org/apache/pdfbox/jbig2/image/Bitmaps.java:611-631 | one row: each source byte through the register, shifted right by shiftVal1, the last unpadded; the destination holds the combined `SpecialLine` |
| Blitting.BlitSpecialShifted | src/main/java/org/apache/pdfbox/jbig2/image/Bitmaps.java:606-633 | the destination becomes `BlitLines` of the special-shifted rows |
| Blitting.ShiftedRowInto | src/main/java/org/apache/pdfbox/jbig2/image/Bitmaps.java:640-669 | one row: the joined bytes and one more byte with the last source byte's remaining bits, unpadded when padding is on |
| Blitting.BlitShifted | src/main/java/org/apache/pdfbox/jbig2/image/Bitmaps.java:635-671 | the destination becomes `BlitLines` of the shifted rows |
| Blitting.Blit | src/main/java/org/apache/pdfbox/jbig2/image/Bitmaps.java:522-581 | when every byte the routine touches lies in the buffers, the destination becomes `BlitImage(...)`; otherwise `IndexOutOfBounds` |
| Blitting.BlitImage | src/main/java/org/apache/pdfbox/jbig2/image/Bitmaps.java:522-581 | the destination bytes blit leaves, as a value: the same length, or `None` where a row falls outside |
| Blitting.BlitLinesFrame | src/main/java/org/apache/pdfbox/jbig2/image/Bitmaps.java:583-671 | a blit keeps every destination byte outside the rows' windows |
| Blitting.BlitLinesAt | src/main/java/org/apache/pdfbox/jbig2/image/Bitmaps.java:583-671 | byte k of row j of a blit is the old byte combined with byte k of the routine's row j |
| Blitting.CombineIntoXor | src/main/java/org/apache/pdfbox/jbig2/image/Bitmaps.java:594 | XOR-combining flips the bits a row reaches whatever they hold |
| Blitting.BlitXorTwice | src/main/java/org/apache/pdfbox/jbig2/image/Bitmaps.java:522-581 | XOR-blitting the same source at the same place twice restores the destination |
| Blitting.NewRegion | src/main/java/org/apache/pdfbox/jbig2/segments/HalftoneRegion.java:161-172 | a fresh region of the given size, `InitialRegion`: 0xff bytes when filled, zeros otherwise; its buffer is apart from the sources' |
| BlitPixels.PlanAsWrittenInside | src/main/java/org/apache/pdfbox/jbig2/image/Bitmaps.java:541-547 | inside the destination the written clipping is the intended one: the skipped row plays no part |
| BlitPixels.RowPixel | src/main/java/org/apache/pdfbox/jbig2/image/Bitmaps.java:583-671 | in every routine, the pixel at column x + i of the row made from a source row is source pixel i |
| BlitPixels.InsideBlit | src/main/java/org/apache/pdfbox/jbig2/image/Bitmaps.java:522-581 | an unclipped blit of a non-empty source succeeds and combines every source row from the byte of (x, y) on |
| BlitPixels.BlitPixel | src/main/java/org/apache/pdfbox/jbig2/image/Bitmaps.java:522-581 | with the source inside the destination, blit succeeds and pixel (x + i, y + j) becomes the old pixel combined with source pixel (i, j) by the operator |
| BlitPixels.BlitKeepsOutside | src/main/java/org/apache/pdfbox/jbig2/image/Bitmaps.java:522-581 | every pixel in a row the source does not cover, or in a byte the source does not reach, keeps its value |
| BlitPixels.InsideExtracts | src/main/java/org/apache/pdfbox/jbig2/image/Bitmaps.java:299-348 | a region inside a bitmap can always be extracted |
| BlitPixels.ExtractedImage | src/main/java/org/apache/pdfbox/jbig2/image/Bitmaps.java:299-348 | the extract of a region inside b is a well-formed `roi.width` x `roi.height` bitmap holding b's pixels |
| BlitPixels.ExtractThenReplace | src/main/java/org/apache/pdfbox/jbig2/image/Bitmaps.java:299-581 | `extract(roi, b)` then a REPLACE blit of it at (roi.x, roi.y) on any destination the region fits succeeds, and shows b's pixels throughout the region |
| BlitPixels.AndClearsNeighbours | src/main/java/org/apache/pdfbox/jbig2/image/Bitmaps.java:583-604 | blit combines whole bytes: a one-pixel source AND-ed at (1, 0) into an all-ones 8 x 1 bitmap clears pixel 0 and pixels 2..7, which it does not cover, and keeps pixel 1 |
| Subsampling.SampleStep | src/main/java/org/apache/pdfbox/jbig2/image/Bitmaps.java:422-424 | visiting (x, y) sets the destination pixel exactly when the sampled source pixel is 1, and changes no other pixel |
| Subsampling.SampleInto | src/main/java/org/apache/pdfbox/jbig2/image/Bitmaps.java:416-426 | succeeds exactly when every sampled position lies in the source buffer; then each destination pixel (x, y) is source pixel (xOffset + x * xStep, yOffset + y * yStep) |
| Subsampling.SizedReadsInRange | src/main/java/org/apache/pdfbox/jbig2/image/Bitmaps.java:411-412 | with sizes `(w - xOffset) / xStep` by `(h - yOffset) / yStep`, every sampled position lies in the source |
| Subsampling.Allocate | src/main/java/org/apache/pdfbox/jbig2/image/Bitmaps.java:414 | a fresh all-zero w x h bitmap, or `NegativeSize` when its byte count is negative |
| Subsampling.SampleNew | src/main/java/org/apache/pdfbox/jbig2/image/Bitmaps.java:411-426 | the allocation's error, the read's error, or a fresh bitmap of sampled pixels |
| Subsampling.Subsample | src/main/java/org/apache/pdfbox/jbig2/image/Bitmaps.java:398-429 | a null source is refused as an illegal argument and a negative size is refused; otherwise a fresh `(w - xOffset) / xStep` by `(h - yOffset) / yStep` bitmap (truncating division) whose pixel (x, y) is source pixel (xOffset + x * xStep, yOffset + y * yStep) |
| Subsampling.SampledPixel | src/main/java/org/apache/pdfbox/jbig2/image/Bitmaps.java:416-426 | a destination pixel after the loop is its sampled source pixel |
| Subsampling.SubsampleX | src/main/java/org/apache/pdfbox/jbig2/image/Bitmaps.java:431-452 | as written: a null source is refused as an illegal argument, a negative size is refused, reads past the buffer are an index error; otherwise the destination is the source width by the sampled width, pixel (x, y) read at (xOffset + x * xStep, y) |
| Subsampling.SubsampleY | src/main/java/org/apache/pdfbox/jbig2/image/Bitmaps.java:454-475 | as written: a null source is refused as an illegal argument, a negative size is refused, reads past the buffer are an index error; otherwise the destination is `(w - yOffset) / yStep` by the source height, pixel (x, y) read at (x, yOffset + y * yStep) |
| Subsampling.SubsampleXSwapsShape | src/main/java/org/apache/pdfbox/jbig2/image/Bitmaps.java:437-438 | a 16 x 1 source with step 2 gives a 16 x 8 destination whose row 1 reads outside the source |
| Subsampling.SubsampleYSwapsShape | src/main/java/org/apache/pdfbox/jbig2/image/Bitmaps.java:460-461 | a 1 x 16 source with step 2 gives a 0 x 16 destination with no pixel, where 1 x 8 is meant |
| Subsampling.SubsampleXIntended | src/main/java/org/apache/pdfbox/jbig2/image/Bitmaps.java:431-452 | with the sampled width by the source height, every read lies in the source and pixel (x, y) is source pixel (xOffset + x * xStep, y) |
| Subsampling.SubsampleYIntended | src/main/java/org/apache/pdfbox/jbig2/image/Bitmaps.java:454-475 | with the source width by the sampled height, pixel (x, y) is source pixel (x, yOffset + y * yStep) |
| Segments.KindOf | src/main/java/org/apache/pdfbox/jbig2/SegmentHeader.java:50-68 | a code with a payload class is a 6-bit type code; which codes have one is stated by `KindOfDomain` |
| Segments.RegionTypeTriples | src/main/java/org/apache/pdfbox/jbig2/SegmentHeader.java:50-68 | every region type comes as an intermediate code t, an immediate code t + 2 and a lossless code t + 3, all with the same class |
| Segments.KindOfDomain | src/main/java/org/apache/pdfbox/jbig2/SegmentHeader.java:50-68 | a code has no class exactly when it is outside the table's list of codes |
| Segments.LongRetainBits | src/main/java/org/apache/pdfbox/jbig2/SegmentHeader.java:193-201 | the long form's retention bits are a whole number of bytes between count + 1 and count + 8, which makes them `((count + 8) >> 3) << 3` |
| Segments.CountAt | src/main/java/org/apache/pdfbox/jbig2/SegmentHeader.java:172-207 | the count field, in either form, ends a whole number of bytes on, at least one byte on and inside the stream |
| Segments.CountAtForms | src/main/java/org/apache/pdfbox/jbig2/SegmentHeader.java:172-207 | a short count of at most 4 is read from 3 bits and ends one byte on; otherwise the field ends after a 29-bit count and its `LongRetainBits` retention bits |
| Segments.ReferredSize | src/main/java/org/apache/pdfbox/jbig2/SegmentHeader.java:229-236 | intended width: 1 byte exactly up to segment number 256, 4 bytes exactly above 65536, otherwise 2, on the unsigned number |
| Segments.ReferredSizeFits | src/main/java/org/apache/pdfbox/jbig2/SegmentHeader.java:229-236 | every number smaller than the segment's own fits the width `ReferredSize` chooses |
| Segments.ReferredSizeAsWritten | src/main/java/org/apache/pdfbox/jbig2/SegmentHeader.java:229-236 | the width as written, from the signed `int` segment number: 1, 2 or 4 bytes, 4 exactly above 65536, and 1 byte for every negative number |
| Segments.ReferredSizeAsWrittenAgrees | src/main/java/org/apache/pdfbox/jbig2/SegmentHeader.java:229-236 | below 2^31 the signed comparison chooses the intended width |
| Segments.ReferredSizeAsWrittenTooNarrow | src/main/java/org/apache/pdfbox/jbig2/SegmentHeader.java:229-236 | from 2^31 on the width as written is 1 byte, which cannot hold every smaller segment number |
| Segments.ReferredAt | src/main/java/org/apache/pdfbox/jbig2/SegmentHeader.java:243-246 | n numbers of w bits each, each kept as a Java `int`, ending n * w bits on, inside the stream |
| Segments.ReferredAtAligned | src/main/java/org/apache/pdfbox/jbig2/SegmentHeader.java:243-246 | whole-byte numbers that start on a byte boundary end on one |
| Segments.PageAt | src/main/java/org/apache/pdfbox/jbig2/SegmentHeader.java:264-273 | the page association is one byte when the size flag is 0 and four bytes otherwise |
| Segments.TypeAt | src/main/java/org/apache/pdfbox/jbig2/SegmentHeader.java:150-163 | the flag byte's low six bits, a type in 0..63 |
| Segments.HeadAt | src/main/java/org/apache/pdfbox/jbig2/SegmentHeader.java:99-130 | sections 7.2.2 to 7.2.5 from a bit position: segment number, flags, referred-to count and numbers with the width as written; on success at least 6 bytes, inside the stream, with a 32-bit unsigned segment number |
| Segments.TailAt | src/main/java/org/apache/pdfbox/jbig2/SegmentHeader.java:261-298 | sections 7.2.6 and 7.2.7: one or four bytes of page association, then the 32-bit data length, ending 40 or 64 bits on, inside the stream |
| Segments.HeaderAt | src/main/java/org/apache/pdfbox/jbig2/SegmentHeader.java:99-130 | the whole header from a bit position; on success at least 11 bytes long and inside the stream |
| Segments.HeadAtAligned | src/main/java/org/apache/pdfbox/jbig2/SegmentHeader.java:172-250 | a head that starts on a byte boundary ends on one |
| Segments.HeaderAtAligned | src/main/java/org/apache/pdfbox/jbig2/SegmentHeader.java:308-323 | a header that starts on a byte boundary ends on one inside the stream, so the data starts on a whole byte, and no header is shorter than 11 bytes |
| Segments.ReferredSegment | src/main/java/org/apache/pdfbox/jbig2/SegmentHeader.java:275-283 | referred segment `nr` is looked up in the page when the document has it, otherwise among the globals |
| Segments.NoSegments | src/main/java/org/apache/pdfbox/jbig2/SegmentHeader.java:239 | the array Java allocates: `count` entries, all null |
| Segments.SegmentHeader.constructor | src/main/java/org/apache/pdfbox/jbig2/SegmentHeader.java:83-88 | every field at its Java default, no payload held |
| Segments.SegmentHeader.ReadSegmentNumber | src/main/java/org/apache/pdfbox/jbig2/SegmentHeader.java:138-142 | the first 32 bits, big-endian, kept as a signed `int`; `EndOfStream` with fewer than 32 bits left |
| Segments.SegmentHeader.ReadSegmentHeaderFlag | src/main/java/org/apache/pdfbox/jbig2/SegmentHeader.java:150-163 | bit 7 sets the retain flag, bit 6 the page-association size, bits 5..0 the type; the cursor moves 8 bits |
| Segments.SegmentHeader.ReadAmountOfReferredToSegments | src/main/java/org/apache/pdfbox/jbig2/SegmentHeader.java:172-207 | the count and cursor of `CountAt`, or `EndOfStream` |
| Segments.SegmentHeader.ReadReferredToSegmentsNumbers | src/main/java/org/apache/pdfbox/jbig2/SegmentHeader.java:222-250 | the numbers of `ReferredAt` with the width `ReferredSizeAsWritten(segmentNr)`; `rtSegments` allocated only when there is at least one; the error at the stream's end |
| Segments.SegmentHeader.ReadNumbers | src/main/java/org/apache/pdfbox/jbig2/SegmentHeader.java:243-246 | count numbers of w bits each, as `ReferredAt` gives them, or `EndOfStream` |
| Segments.SegmentHeader.ReadHead | src/main/java/org/apache/pdfbox/jbig2/SegmentHeader.java:110-119 | the fields and cursor that `HeadAt` gives, or the stream's end |
| Segments.SegmentHeader.ReadSegmentPageAssociation | src/main/java/org/apache/pdfbox/jbig2/SegmentHeader.java:261-284 | the page association of `PageAt`; then each referred segment i is `ReferredSegment(rtsNumbers[i])`, in order |
| Segments.SegmentHeader.ReadSegmentDataLength | src/main/java/org/apache/pdfbox/jbig2/SegmentHeader.java:294-298 | the next 32 bits as an unsigned byte count |
| Segments.SegmentHeader.ReadTail | src/main/java/org/apache/pdfbox/jbig2/SegmentHeader.java:122-125 | the page association and the data length of `TailAt` |
| Segments.SegmentHeader.Parse | src/main/java/org/apache/pdfbox/jbig2/SegmentHeader.java:99-130 | every field is what `HeaderAt(offset)` gives; the header length is the cursor less the offset; the data start offset is set only for the sequential organisation |
| Segments.SegmentHeader.GetSegmentData | src/main/java/org/apache/pdfbox/jbig2/SegmentHeader.java:391-425 | a held payload is returned unchanged; otherwise a new payload of the registered class is made and held; an unregistered type fails |
| Segments.SegmentHeader.CleanSegmentData | src/main/java/org/apache/pdfbox/jbig2/SegmentHeader.java:427-433 | no payload is held afterwards, so the next request builds it again |
| Segments.NewSegmentHeader | src/main/java/org/apache/pdfbox/jbig2/SegmentHeader.java:83-88 | a fresh header parsed from the offset, or the stream's end |
| Patterns.UnsignedByte | src/main/java/org/apache/pdfbox/jbig2/segments/PatternDictionary.java:108-112 | `readByte() & 0xff` lies in 0..255 |
| Patterns.UnsignedSignedByte | src/main/java/org/apache/pdfbox/jbig2/segments/PatternDictionary.java:108-112 | taking back the signed byte recovers the byte that was read |
| Patterns.SizeField | src/main/java/org/apache/pdfbox/jbig2/segments/PatternDictionary.java:108-112 | a size byte as stored: signed as written, 0..255 when read unsigned |
| Patterns.PatternHeaderAt | src/main/java/org/apache/pdfbox/jbig2/segments/PatternDictionary.java:72-117 | present exactly when the width, height and 32-bit gray maximum fit after the flags byte, realigned to the next byte boundary; the template is below 4, the gray maximum is a 32-bit int, and unsigned sizes are bytes 0..255 |
| Patterns.CheckInput | src/main/java/org/apache/pdfbox/jbig2/segments/PatternDictionary.java:126-140 | the header is refused exactly when a pattern size is below 1 |
| Patterns.CheckInputIgnoresTemplate | src/main/java/org/apache/pdfbox/jbig2/segments/PatternDictionary.java:133-139 | MMR coding with a template other than 0 is accepted: the verdict depends on the sizes alone |
| Patterns.WideSizeRefusedAsWritten | src/main/java/org/apache/pdfbox/jbig2/segments/PatternDictionary.java:110-111 | as written, a size byte of 128 or more is stored negative and the header is refused |
| Patterns.SizesAcceptedUnsigned | src/main/java/org/apache/pdfbox/jbig2/segments/PatternDictionary.java:126-131 | read unsigned, the header is accepted exactly when neither size byte is 0 |
| Patterns.TileRect | src/main/java/org/apache/pdfbox/jbig2/segments/PatternDictionary.java:184 | pattern g's region is the g-th `w`-pixel column strip, full height |
| Patterns.TileRoi | src/main/java/org/apache/pdfbox/jbig2/segments/PatternDictionary.java:184 | the region requested for pattern g, with `hdpWidth * gray` in 32-bit arithmetic |
| Patterns.TileRoiIsTile | src/main/java/org/apache/pdfbox/jbig2/segments/PatternDictionary.java:184 | without overflow in `(grayMax + 1) * w` the requested region is the tile |
| Patterns.TileFits | src/main/java/org/apache/pdfbox/jbig2/segments/PatternDictionary.java:161-163 | every tile g <= grayMax lies inside the `(grayMax + 1) * w` x h collective bitmap |
| Patterns.TileFitsAsRequested | src/main/java/org/apache/pdfbox/jbig2/segments/PatternDictionary.java:174-191 | without overflow every requested region can be extracted |
| Patterns.TilePixels | src/main/java/org/apache/pdfbox/jbig2/segments/PatternDictionary.java:174-191 | pixel (x, y) of pattern g is pixel (g * w + x, y) of the collective bitmap, and its pad bits are 0 |
| Patterns.PatternDictionary.constructor | src/main/java/org/apache/pdfbox/jbig2/segments/PatternDictionary.java:41-70 | every field at its Java default, no patterns held |
| Patterns.PatternDictionary.ReadTemplate | src/main/java/org/apache/pdfbox/jbig2/segments/PatternDictionary.java:93-97 | the two template bits, or `EndOfStream` |
| Patterns.PatternDictionary.ReadIsMMREncoded | src/main/java/org/apache/pdfbox/jbig2/segments/PatternDictionary.java:99-106 | a set bit turns MMR on and a clear one leaves the field as it was |
| Patterns.PatternDictionary.ReadPatternWidthAndHeight | src/main/java/org/apache/pdfbox/jbig2/segments/PatternDictionary.java:108-112 | the width and height bytes from the next byte boundary, stored as signed values, as written |
| Patterns.PatternDictionary.ReadGrayMax | src/main/java/org/apache/pdfbox/jbig2/segments/PatternDictionary.java:114-117 | 32 bits kept as a signed `int` |
| Patterns.PatternDictionary.ComputeSegmentDataStructure | src/main/java/org/apache/pdfbox/jbig2/segments/PatternDictionary.java:119-124 | the data starts at the stream position and is as long as the stream less the header |
| Patterns.PatternDictionary.ParseHeader | src/main/java/org/apache/pdfbox/jbig2/segments/PatternDictionary.java:72-91 | the fields of `PatternHeaderAt` as written, then the data layout; the outcome is `CheckInput` of those fields |
| Patterns.PatternDictionary.SetGbAtPixels | src/main/java/org/apache/pdfbox/jbig2/segments/PatternDictionary.java:193-216 | template 0 gives (-hdpWidth, 0), (-3, -1), (2, -2), (-2, -2); any other template the single pixel (-hdpWidth, 0) |
| Patterns.PatternDictionary.ExtractPatterns | src/main/java/org/apache/pdfbox/jbig2/segments/PatternDictionary.java:174-191 | a negative capacity `grayMax + 1` fails with `NegativeSize`, holding nothing new; otherwise the held list's pattern g is the tile of g, there are `grayMax + 1` on success, and a failure is the first tile that cannot be extracted |
| Patterns.PatternDictionary.GetDictionary | src/main/java/org/apache/pdfbox/jbig2/segments/PatternDictionary.java:150-172 | held patterns are returned without decoding; otherwise the AT pixels unless MMR, a collective bitmap `Wrap32((grayMax + 1) * hdpWidth)` wide, and its tiles; every pattern is extracted when the width does not overflow |
| Halftone.HalftoneHeaderAt | src/main/java/org/apache/pdfbox/jbig2/segments/HalftoneRegion.java:96-137 | the flags byte, four 32-bit grid fields kept as `int`s and two 16-bit vector fields, ending 168 bits on; `None` at the stream's end |
| Halftone.Shr8 | src/main/java/org/apache/pdfbox/jbig2/segments/HalftoneRegion.java:342-350 | `x >> 8` on an `int` is the floor of x / 256 |
| Halftone.Shr8Unique | src/main/java/org/apache/pdfbox/jbig2/segments/HalftoneRegion.java:342-350 | the floor is the only value within the shift's bounds |
| Halftone.ComputeXYExact | src/main/java/org/apache/pdfbox/jbig2/segments/HalftoneRegion.java:342-350 | without overflow a cell's corner is the floor of its lattice point divided by 256 |
| Halftone.ComputeXYBounds | src/main/java/org/apache/pdfbox/jbig2/segments/HalftoneRegion.java:342-350 | every cell corner lies within 2^23 pixels of the origin |
| Halftone.ComputeXShift | src/main/java/org/apache/pdfbox/jbig2/segments/HalftoneRegion.java:342-345 | moving the grid origin by whole pixels moves every cell corner by the same number of pixels |
| Halftone.SkippedCellOutside | src/main/java/org/apache/pdfbox/jbig2/segments/HalftoneRegion.java:422-441 | a pattern on a skipped cell has no pixel inside the region |
| Halftone.KeptCellInside | src/main/java/org/apache/pdfbox/jbig2/segments/HalftoneRegion.java:422-441 | a cell that is not skipped has a pattern pixel inside a non-empty region |
| Halftone.Concatenated | src/main/java/org/apache/pdfbox/jbig2/segments/HalftoneRegion.java:227-238 | as many patterns as the dictionaries hold together; their order is stated by `ConcatenatedAt` |
| Halftone.Collected | src/main/java/org/apache/pdfbox/jbig2/segments/HalftoneRegion.java:227-238 | the pattern lists read one after another; the first failing dictionary's error |
| Halftone.CollectedFailureStays | src/main/java/org/apache/pdfbox/jbig2/segments/HalftoneRegion.java:227-238 | once a prefix of the dictionaries fails, the whole run fails with the same error |
| Halftone.ConcatenatedAt | src/main/java/org/apache/pdfbox/jbig2/segments/HalftoneRegion.java:227-238 | pattern k of dictionary d has gray value k plus the sizes of the dictionaries before it |
| Halftone.GrayAtPixelsCausal | src/main/java/org/apache/pdfbox/jbig2/segments/HalftoneRegion.java:250-267 | the AT pixels are none with MMR; otherwise x = 3 for templates 0 and 1 and 2 beyond, then (-3, -1), (2, -2), (-2, -2); each lies in a row above or left of the pixel decoded |
| Halftone.ScanLength | src/main/java/org/apache/pdfbox/jbig2/segments/HalftoneRegion.java:298-309 | the bytes the XOR scan visits: one per started group of eight columns, per row |
| Halftone.XorBytes | src/main/java/org/apache/pdfbox/jbig2/segments/HalftoneRegion.java:295-311 | the combined plane is as long as the plane it replaces |
| Halftone.XorBytesAt | src/main/java/org/apache/pdfbox/jbig2/segments/HalftoneRegion.java:301-308 | byte i of the combined plane is the XOR of both planes' bytes below n, and the old byte from n on |
| Halftone.Binary | src/main/java/org/apache/pdfbox/jbig2/segments/HalftoneRegion.java:281-289 | the Gray-code step on plane j keeps the plane's length; its recursion is stated by `BinaryPlanesStep` and its pixels by `BinaryPixel` |
| Halftone.BinaryPixel | src/main/java/org/apache/pdfbox/jbig2/segments/HalftoneRegion.java:277-311 | a converted pixel is the XOR of that pixel in its own decoded plane and every plane above it |
| Halftone.PlaneOrder | src/main/java/org/apache/pdfbox/jbig2/segments/HalftoneRegion.java:277-289 | the decoder delivers the most significant plane first; plane k is delivered at position `count - 1 - k` |
| Halftone.GrayValueBound | src/main/java/org/apache/pdfbox/jbig2/segments/HalftoneRegion.java:313-340 | a gray value spelled by `count` planes lies in 0..2^count - 1 |
| Halftone.ValueBit | src/main/java/org/apache/pdfbox/jbig2/segments/HalftoneRegion.java:333-334 | `(getByte(i) >> ((7 - x) & 7)) & 1` is pixel x of the byte |
| Halftone.BinaryPlanes | src/main/java/org/apache/pdfbox/jbig2/segments/HalftoneRegion.java:277-289 | every plane after the Gray-code step, one per decoded plane |
| Halftone.BinaryPlanesStep | src/main/java/org/apache/pdfbox/jbig2/segments/HalftoneRegion.java:286-288 | plane j below the top is the decoded plane j XORed with converted plane j + 1 |
| Halftone.RenderFrom | src/main/java/org/apache/pdfbox/jbig2/segments/HalftoneRegion.java:200-220 | rendering the cells from (m, n) on keeps the region's length; each step is stated by `RenderFromCell`, `RenderEmptyGrid` and `RenderFailsOnMissingPattern` |
| Halftone.RenderFromCell | src/main/java/org/apache/pdfbox/jbig2/segments/HalftoneRegion.java:211-217 | one cell is the blit of the pattern its gray value selects at (computeX, computeY), then the next cell |
| Halftone.RenderEmptyGrid | src/main/java/org/apache/pdfbox/jbig2/segments/HalftoneRegion.java:200-220 | an empty grid leaves the region unchanged |
| Halftone.RenderFailsOnMissingPattern | src/main/java/org/apache/pdfbox/jbig2/segments/HalftoneRegion.java:215 | a gray value that selects no pattern makes the rendering fail, whatever was drawn before it |
| Halftone.GrayRows | src/main/java/org/apache/pdfbox/jbig2/segments/HalftoneRegion.java:313-340 | HGH rows of HGW gray values, each the planes' binary number |
| Halftone.RegionRendering | src/main/java/org/apache/pdfbox/jbig2/segments/HalftoneRegion.java:176-192 | steps 2 to 5 on the region keep its length; HSKIP with no pattern fails with `IndexOutOfBounds`, and a region is rendered only with at least two patterns and a non-negative grid |
| Halftone.SinglePatternRefusedAsWritten | src/main/java/org/apache/pdfbox/jbig2/segments/HalftoneRegion.java:277-279 | with a single pattern the written decoding fails with `IndexOutOfBounds`, where every gray value should be 0 |
| Halftone.HalftoneRegion.constructor | src/main/java/org/apache/pdfbox/jbig2/segments/HalftoneRegion.java:89-94 | the region size from the segment information, every other field at its default |
| Halftone.HalftoneRegion.ReadFlags | src/main/java/org/apache/pdfbox/jbig2/segments/HalftoneRegion.java:103-122 | the default pixel, the operator of the three-bit code, the skip flag, two template bits and the MMR bit; skip and MMR are only switched on |
| Halftone.HalftoneRegion.ReadGrid | src/main/java/org/apache/pdfbox/jbig2/segments/HalftoneRegion.java:125-133 | HGW, HGH, HGX and HGY as `int`s, HRX and HRY as 16-bit unsigned values |
| Halftone.HalftoneRegion.ReadFields | src/main/java/org/apache/pdfbox/jbig2/segments/HalftoneRegion.java:103-133 | the fields of `HalftoneHeaderAt`, or the stream's end |
| Halftone.HalftoneRegion.ComputeSegmentDataStructure | src/main/java/org/apache/pdfbox/jbig2/segments/HalftoneRegion.java:139-144 | the data starts at the stream position and is as long as the stream less the header |
| Halftone.HalftoneRegion.ParseHeader | src/main/java/org/apache/pdfbox/jbig2/segments/HalftoneRegion.java:96-137 | the header fields of `HalftoneHeaderAt`, then the data layout |
| Halftone.HalftoneRegion.ComputeHSkip | src/main/java/org/apache/pdfbox/jbig2/segments/HalftoneRegion.java:422-441 | a fresh HGW x HGH mask whose pixel (n, m) is 1 exactly when a pattern at cell (m, n) lies wholly outside the region |
| Halftone.HalftoneRegion.FillSkipMask | src/main/java/org/apache/pdfbox/jbig2/segments/HalftoneRegion.java:426-439 | after the loops every mask pixel holds its HSKIP value |
| Halftone.HalftoneRegion.SkipStep | src/main/java/org/apache/pdfbox/jbig2/segments/HalftoneRegion.java:430-437 | pixel (n, m) becomes its HSKIP value and no other pixel changes |
| Halftone.HalftoneRegion.CombineGrayScalePlanes | src/main/java/org/apache/pdfbox/jbig2/segments/HalftoneRegion.java:295-311 | the scanned bytes of plane j become their XOR with plane j + 1; only plane j's buffer changes |
| Halftone.HalftoneRegion.CombineRow | src/main/java/org/apache/pdfbox/jbig2/segments/HalftoneRegion.java:301-308 | one row's bytes of plane j XORed in order, nothing else changed |
| Halftone.HalftoneRegion.DecodePlanes | src/main/java/org/apache/pdfbox/jbig2/segments/HalftoneRegion.java:277-289 | plane `bitsPerValue - 1` first, each lower plane combined with the one above as soon as decoded; the array ends as `BinaryPlanes` |
| Halftone.HalftoneRegion.DecodeAllPlanes | src/main/java/org/apache/pdfbox/jbig2/segments/HalftoneRegion.java:269-289 | fresh planes, plane k at index k, each the Gray-code conversion of the decoded ones |
| Halftone.HalftoneRegion.GrayScaleDecoding | src/main/java/org/apache/pdfbox/jbig2/segments/HalftoneRegion.java:244-293 | as written: a negative `bitsPerValue` or plane size fails with `NegativeSize`; `bitsPerValue` 0 indexes plane -1 and fails with `IndexOutOfBounds`; otherwise the gray values `GrayValuesOf` the Gray-code-converted planes |
| Halftone.HalftoneRegion.GrayScaleDecodingIntended | src/main/java/org/apache/pdfbox/jbig2/segments/HalftoneRegion.java:244-293 | as Annex C.5 reads: `bitsPerValue` 0 decodes no plane and every gray value is the empty sum 0; otherwise the same gray values as written |
| Halftone.HalftoneRegion.ComputeGrayScaleValues | src/main/java/org/apache/pdfbox/jbig2/segments/HalftoneRegion.java:313-340 | entry [y][x] is the sum over the planes of pixel (x, y) of plane j times 2^j |
| Halftone.HalftoneRegion.FillGrayValues | src/main/java/org/apache/pdfbox/jbig2/segments/HalftoneRegion.java:319-338 | every cell of the table holds its gray value once the loops end |
| Halftone.HalftoneRegion.FillGroup | src/main/java/org/apache/pdfbox/jbig2/segments/HalftoneRegion.java:323-336 | up to eight cells sharing one plane byte receive their gray values |
| Halftone.HalftoneRegion.RenderPattern | src/main/java/org/apache/pdfbox/jbig2/segments/HalftoneRegion.java:200-220 | the region becomes `RenderFrom(0, 0, ...)`: the cells blitted in row-major order; a missing pattern or a failed blit reports its error |
| Halftone.HalftoneRegion.RenderRow | src/main/java/org/apache/pdfbox/jbig2/segments/HalftoneRegion.java:208-218 | one grid row rendered as `RenderFrom` says |
| Halftone.HalftoneRegion.RenderCell | src/main/java/org/apache/pdfbox/jbig2/segments/HalftoneRegion.java:211-217 | one cell's blit of its pattern at (computeX, computeY) |
| Halftone.HalftoneRegion.GetPatterns | src/main/java/org/apache/pdfbox/jbig2/segments/HalftoneRegion.java:227-238 | the patterns of every referred dictionary, in the order of the referred segments, or the first failure |
| Halftone.HalftoneRegion.CollectPatterns | src/main/java/org/apache/pdfbox/jbig2/segments/HalftoneRegion.java:164-167 | held patterns are kept; otherwise `Collected(ds)` is held on success and its error reported on failure |
| Halftone.HalftoneRegion.AllocateRegion | src/main/java/org/apache/pdfbox/jbig2/segments/HalftoneRegion.java:161-162 | a fresh all-zero region of the segment's size, apart from the pattern buffers |
| Halftone.HalftoneRegion.RenderRegion | src/main/java/org/apache/pdfbox/jbig2/segments/HalftoneRegion.java:168-192 | the region becomes `RegionRendering` of its filled bytes, or the error it reports |
| Halftone.HalftoneRegion.GetRegionBitmap | src/main/java/org/apache/pdfbox/jbig2/segments/HalftoneRegion.java:154-195 | a held region is returned unchanged; otherwise a new region is held first, then the patterns; a failure there leaves the region unrendered; success renders `RegionRendering` of the initial bytes |
| Text.SignedFive | src/main/java/org/apache/pdfbox/jbig2/segments/TextRegion.java:167-170 | the five-bit field as two's complement, in -16..15 and congruent modulo 32 |
| Text.SignedFiveUnique | src/main/java/org/apache/pdfbox/jbig2/segments/TextRegion.java:167-170 | two's complement is the only reading in -16..15 that agrees modulo 32 |
| Text.StripCount | src/main/java/org/apache/pdfbox/jbig2/segments/TextRegion.java:187-188 | SBSTRIPS is `1 << LOGSBSTRIPS`, one of 1, 2, 4 and 8 |
| Text.RegionFlagsAt | src/main/java/org/apache/pdfbox/jbig2/segments/TextRegion.java:161-201 | present exactly when 16 bits remain; SBDSOFFSET is a 5-bit signed value in -16..15, the operator is never REPLACE, the reference corner and log strips are below 4, the one-bit fields are 0 or 1 |
| Text.HuffmanFlagsAt | src/main/java/org/apache/pdfbox/jbig2/segments/TextRegion.java:203-231 | present exactly when 16 bits remain; RSIZE is one bit and every other selector two bits, 0..3 |
| Text.UserTablesBefore | src/main/java/org/apache/pdfbox/jbig2/segments/TextRegion.java:572-590 | how many of the first n quantities use a user table, at most n |
| Text.UserTablesBeforeMonotone | src/main/java/org/apache/pdfbox/jbig2/segments/TextRegion.java:422-942 | counting user tables is monotone in the number of quantities |
| Text.UserTablesInOrder | src/main/java/org/apache/pdfbox/jbig2/segments/TextRegion.java:422-942 | of two quantities that both use user tables, the earlier takes the earlier table segment |
| Text.AcceptedIffTablesInRange | src/main/java/org/apache/pdfbox/jbig2/segments/TextRegion.java:289-336 | the selectors `checkInput` accepts are exactly those naming tables defined for their quantity |
| Text.ResetKeepsSymbolTables | src/main/java/org/apache/pdfbox/jbig2/segments/TextRegion.java:308-335 | resetting the refinement selectors keeps the FS, DS and DT tables and codes every refinement quantity with its first standard table |
| Text.TablesBefore | src/main/java/org/apache/pdfbox/jbig2/segments/TextRegion.java:1022-1043 | the number of table segments among the first n referred segments, at most n |
| Text.SymbolsOf | src/main/java/org/apache/pdfbox/jbig2/segments/TextRegion.java:1006-1020 | fails, with a null reference, exactly when a referred segment is missing; the order of the symbols is stated by `SymbolsOfAppend` |
| Text.SymbolsOfPrefixFails | src/main/java/org/apache/pdfbox/jbig2/segments/TextRegion.java:1006-1020 | a missing segment makes the gathering fail however many segments follow |
| Text.SymbolsOfAppend | src/main/java/org/apache/pdfbox/jbig2/segments/TextRegion.java:1006-1020 | gathering distributes over concatenation of the referred segments |
| Text.RunCodeTableAt | src/main/java/org/apache/pdfbox/jbig2/segments/TextRegion.java:1048-1057 | the run-code table lines: one line per non-zero four-bit prefix length, in order |
| Text.RunCodeTableStep | src/main/java/org/apache/pdfbox/jbig2/segments/TextRegion.java:1050-1057 | one more prefix length adds its line exactly when it is non-zero |
| Text.RunCodeTableComplete | src/main/java/org/apache/pdfbox/jbig2/segments/TextRegion.java:1048-1057 | every non-zero prefix length has its line |
| Text.Repeat | src/main/java/org/apache/pdfbox/jbig2/segments/TextRegion.java:1104-1111 | n copies of a length |
| Text.LengthsFrom | src/main/java/org/apache/pdfbox/jbig2/segments/TextRegion.java:1069-1113 | the intended code lengths extend the lengths so far to at least one per symbol, keeping them as a prefix; each step is `NextLengths`, as `LengthsFromStep` states |
| Text.LengthsFromStep | src/main/java/org/apache/pdfbox/jbig2/segments/TextRegion.java:1069-1113 | below the needed count the next code extends the intended lengths |
| Text.NextLengths | src/main/java/org/apache/pdfbox/jbig2/segments/TextRegion.java:1072-1111 | one code keeps the lengths so far as a prefix and adds at least one, except a code above 34, which adds nothing |
| Text.NextLengthsAsWritten | src/main/java/org/apache/pdfbox/jbig2/segments/TextRegion.java:1072-1111 | as written: code 32 repeats `previousCodeLength`, which only a code below 32 sets |
| Text.LengthsAsWrittenFromStep | src/main/java/org/apache/pdfbox/jbig2/segments/TextRegion.java:1069-1113 | below the needed count the next code extends the written lengths |
| Text.LengthsAsWrittenFrom | src/main/java/org/apache/pdfbox/jbig2/segments/TextRegion.java:1065-1113 | as written, from any `previousCodeLength`: when the codes suffice there is a length for at least every symbol, and the lengths already given are kept as the prefix |
| Text.LengthsAsWrittenAgreeFrom | src/main/java/org/apache/pdfbox/jbig2/segments/TextRegion.java:1072-1111 | when no code 32 follows a zero run or a code above 32, and a code 32 at the current position would copy the last length, the written and the intended lengths are equal |
| Text.LengthsAsWrittenAgree | src/main/java/org/apache/pdfbox/jbig2/segments/TextRegion.java:1065-1113 | for every run-code sequence in which no code 32 follows a zero run or a code above 32, `symbolIDCodeLengths` as written gives the lengths of section 7.4.3.1.7 |
| Text.NonZeroCodes | src/main/java/org/apache/pdfbox/jbig2/segments/TextRegion.java:1072-1111 | the table lines for the non-zero lengths, each coding its symbol's index |
| Text.NonZeroCodesComplete | src/main/java/org/apache/pdfbox/jbig2/segments/TextRegion.java:1072-1111 | every symbol with a non-zero length has its line |
| Text.StaleRunLengthAsWritten | src/main/java/org/apache/pdfbox/jbig2/segments/TextRegion.java:1079-1092 | after a length of 5 and a run of three zeros, code 32 repeats 5 as written and 0 as intended |
| Text.AppendRun | src/main/java/org/apache/pdfbox/jbig2/segments/TextRegion.java:1104-1111 | runLength symbols of the length, a line added for each when the length is positive |
| Text.NextCodes | src/main/java/org/apache/pdfbox/jbig2/segments/TextRegion.java:1071-1112 | one pass with `previousCodeLength` following runs too: the lengths become `NextLengths` |
| Text.SymbolIdCodeLengthsAsWritten | src/main/java/org/apache/pdfbox/jbig2/segments/TextRegion.java:1065-1119 | the code table the run codes give as written, `NonZeroCodes(LengthsAsWrittenFrom(...))`, or the stream's end |
| Text.SymbolIdCodeLengths | src/main/java/org/apache/pdfbox/jbig2/segments/TextRegion.java:1065-1119 | the code table with code 32 copying the previous symbol's length, `NonZeroCodes(LengthsFrom(...))` |
| Text.RefinementRequestSizes | src/main/java/org/apache/pdfbox/jbig2/segments/TextRegion.java:679-693 | the refined size is the reference symbol's plus RDW and RDH as `int`s, and the reference offset half of each change plus RDX or RDY |
| Text.RefinementOffsetIsHalf | src/main/java/org/apache/pdfbox/jbig2/segments/TextRegion.java:683-684 | `rdw >> 1` is the only d with 2 * d <= rdw < 2 * d + 2 |
| Text.PlaceCorners | src/main/java/org/apache/pdfbox/jbig2/segments/TextRegion.java:949-1004 | for each orientation and corner: the origin along S is `currentS`, truncated, and along T is T less the extent for the bottom corners; `currentS` moves by width - 1 or height - 1 |
| Text.IbAt | src/main/java/org/apache/pdfbox/jbig2/segments/TextRegion.java:653-704 | the symbol itself when R is 0; otherwise the decoded refinement deltas, with the refined bitmap, or the first missing value |
| Text.InstanceAt | src/main/java/org/apache/pdfbox/jbig2/segments/TextRegion.java:506-515 | CURT, the symbol ID, RI and the symbol read from at least one further decoded value; CURT is 0 with one strip |
| Text.PlaceInstance | src/main/java/org/apache/pdfbox/jbig2/segments/TextRegion.java:506-520 | one instance read at S, placed at T = STRIPT + CURT, counted |
| Text.Transition | src/main/java/org/apache/pdfbox/jbig2/segments/TextRegion.java:451-523 | steps 3 a) to d) of section 6.4.5, one decoded value at a time: a step that goes on consumes at least one value and only adds placements; the cases are stated by `TransitionStart`, `TransitionFirst` and `TransitionNext` |
| Text.RunUnfold | src/main/java/org/apache/pdfbox/jbig2/segments/TextRegion.java:451-523 | the loop's reading takes the step `Transition` gives |
| Text.RunDone | src/main/java/org/apache/pdfbox/jbig2/segments/TextRegion.java:462 | the loop stops at the top of a strip once SBNUMINSTANCES instances are placed |
| Text.RunAtEnd | src/main/java/org/apache/pdfbox/jbig2/segments/TextRegion.java:451-523 | with the decoded values used up, the next value is missing and the loop fails |
| Text.TransitionStart | src/main/java/org/apache/pdfbox/jbig2/segments/TextRegion.java:462-471 | at a strip's top: done with every instance in; otherwise DT times SBSTRIPS moves STRIPT and `currentS` is 0 |
| Text.TransitionFirst | src/main/java/org/apache/pdfbox/jbig2/segments/TextRegion.java:477-483 | a strip's first instance sits at FIRSTS + DFS |
| Text.TransitionNext | src/main/java/org/apache/pdfbox/jbig2/segments/TextRegion.java:489-502 | unless IDS is OOB or the count is reached, the next instance sits IDS + SBDSOFFSET past `currentS` |
| Text.RunExtends | src/main/java/org/apache/pdfbox/jbig2/segments/TextRegion.java:451-523 | the reading only ever adds placements to the record |
| Text.PaintAppend | src/main/java/org/apache/pdfbox/jbig2/segments/TextRegion.java:506-520 | drawing one more instance is the bytes so far, then its blit |
| Text.PaintStops | src/main/java/org/apache/pdfbox/jbig2/segments/TextRegion.java:506-520 | once a blit falls outside the buffers, no later instance is drawn |
| Text.DrawInstance | src/main/java/org/apache/pdfbox/jbig2/segments/TextRegion.java:506-520 | the instance read at S drawn where `blit` places it, or the error |
| Text.DrawnAs | src/main/java/org/apache/pdfbox/jbig2/segments/TextRegion.java:506-520 | the instance read and placed at S and T = STRIPT + CURT is the drawing step when its blit fits |
| Text.PlacedStep | src/main/java/org/apache/pdfbox/jbig2/segments/TextRegion.java:506-520 | drawing one instance in step with the loop: a failed reading or blit makes the loop fail the same way |
| Text.DecodeFails | src/main/java/org/apache/pdfbox/jbig2/segments/TextRegion.java:451-523 | decoding fails as the reading from its start does |
| Text.DecodeSucceeds | src/main/java/org/apache/pdfbox/jbig2/segments/TextRegion.java:451-523 | decoding succeeds when the reading ends without error and every instance fits |
| Text.StripMultiple | src/main/java/org/apache/pdfbox/jbig2/segments/TextRegion.java:466 | adding a multiple of the strip count keeps STRIPT a multiple of it |
| Text.PlacementsOkAppend | src/main/java/org/apache/pdfbox/jbig2/segments/TextRegion.java:451-523 | a placement that fits the record keeps the record |
| Text.StartStepKeeps | src/main/java/org/apache/pdfbox/jbig2/segments/TextRegion.java:462-471 | a step from a strip's top keeps the loop's invariant, or ends the loop with every instance in |
| Text.FirstStepKeeps | src/main/java/org/apache/pdfbox/jbig2/segments/TextRegion.java:477-483 | a step before a strip's first instance keeps the invariant, or ends with an error |
| Text.NextStepKeeps | src/main/java/org/apache/pdfbox/jbig2/segments/TextRegion.java:489-502 | a step within a strip keeps the invariant, or ends with an error |
| Text.RunKeepsTrace | src/main/java/org/apache/pdfbox/jbig2/segments/TextRegion.java:451-523 | the whole loop keeps the record from any state where the invariant holds |
| Text.DecodePlacesAll | src/main/java/org/apache/pdfbox/jbig2/segments/TextRegion.java:451-523 | a successful decoding places exactly SBNUMINSTANCES instances (none when not positive); each strip T is a multiple of SBSTRIPS, and each instance after a strip's first lies IDS + SBDSOFFSET further on |
| Text.DecodeNothing | src/main/java/org/apache/pdfbox/jbig2/segments/TextRegion.java:455-462 | with SBNUMINSTANCES not positive only the initial STRIPT is read and nothing is drawn |
| Text.TextRegion.constructor | src/main/java/org/apache/pdfbox/jbig2/segments/TextRegion.java:129-134 | the region's size, every other field at its Java default |
| Text.TextRegion.ReadRegionFlags | src/main/java/org/apache/pdfbox/jbig2/segments/TextRegion.java:161-201 | the fields of `RegionFlagsAt`; SBREFINE and SBHUFF are only switched on |
| Text.TextRegion.ReadComposition | src/main/java/org/apache/pdfbox/jbig2/segments/TextRegion.java:164-178 | SBRTEMPLATE, SBDSOFFSET as `SignedFive`, SBDEFPIXEL and the operator of SBCOMBOP |
| Text.TextRegion.ReadLayout | src/main/java/org/apache/pdfbox/jbig2/segments/TextRegion.java:181-200 | TRANSPOSED, REFCORNER, SBSTRIPS as `StripCount`, SBREFINE and SBHUFF |
| Text.TextRegion.ReadHuffmanFlags | src/main/java/org/apache/pdfbox/jbig2/segments/TextRegion.java:203-231 | the selectors of `HuffmanFlagsAt`, or the stream's end |
| Text.TextRegion.ReadRefinementSelectors | src/main/java/org/apache/pdfbox/jbig2/segments/TextRegion.java:206-218 | an unused bit, SBHUFFRSIZE, RDY, RDX and RDH |
| Text.TextRegion.ReadSymbolSelectors | src/main/java/org/apache/pdfbox/jbig2/segments/TextRegion.java:221-230 | SBHUFFRDW, DT, DS and FS |
| Text.TextRegion.ReadUseRefinement | src/main/java/org/apache/pdfbox/jbig2/segments/TextRegion.java:233-252 | with refinement and template 0, the four AT coordinates as signed bytes; otherwise nothing read |
| Text.TextRegion.ReadAmountOfSymbolInstances | src/main/java/org/apache/pdfbox/jbig2/segments/TextRegion.java:254-266 | the 32-bit count, limited to width * height of the region |
| Text.TextRegion.GetSymbols | src/main/java/org/apache/pdfbox/jbig2/segments/TextRegion.java:268-275 | with referred segments, the symbols of `SymbolsOf` appended and `amountOfSymbols` their count |
| Text.TextRegion.GetUserTable | src/main/java/org/apache/pdfbox/jbig2/segments/TextRegion.java:1022-1043 | the referred segment that is table segment number `position`, or `None` when there are fewer |
| Text.TextRegion.CheckInput | src/main/java/org/apache/pdfbox/jbig2/segments/TextRegion.java:289-336 | the refinement template zero without refinement; selector 2 refused for FS, RDW, RDH, RDX and RDY; the refinement selectors reset without refinement |
| Text.TextRegion.ReadRunCodeTable | src/main/java/org/apache/pdfbox/jbig2/segments/TextRegion.java:1048-1057 | the 35 four-bit prefix lengths as `RunCodeTableAt`, 140 bits on |
| Text.TextRegion.ReadSymbolIdCodes | src/main/java/org/apache/pdfbox/jbig2/segments/TextRegion.java:1045-1121 | the run-code table, then `SymbolIdCodeLengthsAsWritten` of the run codes; the cursor aligned after them |
| Text.TextRegion.ComputeSymbolCodeLength | src/main/java/org/apache/pdfbox/jbig2/segments/TextRegion.java:277-287 | with Huffman coding `NonZeroCodes` of the written lengths; otherwise `BitsPerValue(amountOfSymbols)` |
| Text.TextRegion.CreateRegionBitmap | src/main/java/org/apache/pdfbox/jbig2/segments/TextRegion.java:394-407 | a fresh region of the segment's size, every byte 0xff when SBDEFPIXEL is 1 |
| Text.TextRegion.GetRegionBitmap | src/main/java/org/apache/pdfbox/jbig2/segments/TextRegion.java:339-353 | the region created, then the instances decoded as `Decode` gives them |
| Text.TextRegion.DecodeSymbolInstances | src/main/java/org/apache/pdfbox/jbig2/segments/TextRegion.java:451-523 | the region's bytes become what `Decode` gives, or its error |
| Text.TextRegion.DecodeInstance | src/main/java/org/apache/pdfbox/jbig2/segments/TextRegion.java:506-520 | the instance read at `currentS` and drawn as `DrawInstance` says |
| Text.TextRegion.ReadInstance | src/main/java/org/apache/pdfbox/jbig2/segments/TextRegion.java:506-515 | CURT, the symbol ID, RI and the symbol as `InstanceAt` says |
| Text.TextRegion.Anchor | src/main/java/org/apache/pdfbox/jbig2/segments/TextRegion.java:949-1004 | the S and T of the symbol's origin before truncation, and `currentS` once drawn |
| Text.TextRegion.Blit | src/main/java/org/apache/pdfbox/jbig2/segments/TextRegion.java:949-1004 | the symbol drawn where `Place` puts it with the region's operator, as `BlitImage` does; `currentS` moves to its far edge |

## Left out

- I/O: the JDK stream is modelled as a finite bit sequence with a cursor. Reading past its end is the error `EndOfStream`. Seeking and lengths are in bytes.
- BitStream.BitReader.ReadByte: reads the byte at the next byte boundary. The JDK reads the byte that holds the next bit. Every caller reads on a byte boundary, where the two agree.
- The arithmetic decoder, the integer decoder, the Huffman tables, and the generic, generic-refinement and symbol-dictionary decoders are not part of this model. Their values and bitmaps are parameters, consumed in the order Java requests them.
- The entropy-decoding steps of the text region are that oracle's values. These are `decodeStripT`'s table choice, `decodeDT`, `decodeDfS`, `decodeIdS`, `decodeCurrentT`, `decodeID`, `decodeRI`, `decodeRdw`..`decodeRdy`, `decodeSymInRefSize` and `setCodingStatistics`. Each one's user-table choice is stated by `UserTablesBefore`/`TableFor`.
- CombinationOperator.java is not part of this model. `OperatorFromCode` encodes its code mapping: 0..3 are OR, AND, XOR, XNOR and anything else is REPLACE.
- RegionSegmentInformation, the document and page objects, the payload classes: the region size is a constructor argument. Pages and global segments are maps from segment numbers. A payload is a value naming its class.
- Memoised payloads are held in an `Option` field. The soft-reference cache and its garbage-collected eviction are not modelled.
- Logging, `toString` and debug strings are left out. So are `asRaster`, `asBufferedImage`, `buildRaster` and the floating-point resizer.
- Blitting.Blit: on a failure the destination is left unchanged. Java writes rows until its `ArrayIndexOutOfBoundsException`, and the halftone memo (HalftoneRegion.java:156) then returns that partly written bitmap. The model builds the result as a value and only stores it when the whole blit fits.
- Blitting.Blit: requires the source and destination buffers to be distinct. Java allows blitting a bitmap onto itself.
- PackedBitmap.RowStride: `(width + 7) >> 3` and `height * rowStride` are unbounded here. Bitmap.java wraps both in 32-bit `int`s, for example for width 0x7FFF_FFFF.
- Text.TextRegion.ComputeSymbolCodeLength: the run codes are a parameter, and so is their bit count. The method is not tied to reading them through the run-code table it has just read. The cursor after them is `AlignUp(start + 140 + runCodeBits)`, with `runCodeBits` abstract.
- BitUtil.CeilLog2: this is the exact integer ceiling of log2. Java computes `Math.ceil(Math.log(n) / Math.log(2))` in doubles, which can give one more, for example at 2^29. Floating point is not modelled.
- Subsampling.Subsample: requires steps of at least 1 and offsets below the step, as the image read parameters guarantee. Java would raise `ArithmeticException` for a step of 0.
- Subsampling.SubsampleX: requires a step of at least 1, where Java would raise `ArithmeticException` for 0.
- Subsampling.SubsampleY: requires a step of at least 1, where Java would raise `ArithmeticException` for 0.
- Concurrency: none in the core.

## Findings

| source | as written | input that shows it | evidently intended | confidence | as-written member | corrected member |
|---|---|---|---|---|---|---|
| src/main/java/org/apache/pdfbox/jbig2/image/Bitmaps.java:541-547 | for y < 0, `startLine = -y` but the source index moves down one row only, and the routines never add the other rows | an 8 x 3 source at (0, -2) on an 8 x 1 destination: source row 1 is drawn on destination row 0 | the `-y` hidden rows are skipped, so source row 2 lands on row 0 | not executed | Blitting.PlanSkipsOneRow | Blitting.Plan |
| src/main/java/org/apache/pdfbox/jbig2/SegmentHeader.java:229-236 | the width of referred-to numbers is chosen by comparing the signed `int` segment number | segment number 0x8000_0000 is negative, so 1-byte numbers are read | the width by the unsigned segment number (section 7.2.5): 4 bytes | not executed | Segments.ReferredSizeAsWrittenTooNarrow | Segments.ReferredSizeFits |
| src/main/java/org/apache/pdfbox/jbig2/segments/PatternDictionary.java:110-111 | the size bytes are stored as the signed value of `readByte()`, and `checkInput` refuses sizes below 1 | a width byte of 0xC8 is stored as -56 and the header is refused | pattern sizes are unsigned bytes (section 7.4.4.1.2): width 200 accepted | not executed | Patterns.WideSizeRefusedAsWritten | Patterns.SizesAcceptedUnsigned |
| src/main/java/org/apache/pdfbox/jbig2/segments/HalftoneRegion.java:277-279 | with one pattern `bitsPerValue` is 0, and plane `bitsPerValue - 1 = -1` is indexed | a halftone region over a dictionary of a single pattern fails with `IndexOutOfBounds` | Annex C.5 with GSBPP = 0 decodes no plane: every gray value is 0 | not executed | Halftone.SinglePatternRefusedAsWritten | Halftone.HalftoneRegion.GrayScaleDecodingIntended |
| src/main/java/org/apache/pdfbox/jbig2/segments/TextRegion.java:1079-1111 | `previousCodeLength` is set by literal lengths only, so code 32 after a run of zeros repeats an older length | run codes 5, 33 (3 zeros), 32 (3 copies) for 7 symbols give lengths 5,0,0,0,5,5,5 | code 32 repeats the previous symbol's length (section 7.4.3.1.7): 5,0,0,0,0,0,0 | not executed | Text.StaleRunLengthAsWritten | Text.SymbolIdCodeLengths |
| src/main/java/org/apache/pdfbox/jbig2/image/Bitmaps.java:437-438 | `subsampleX` allocates the source width by the sampled width | a 16 x 1 source with step 2 gives a 16 x 8 destination whose later rows read outside the source | the sampled width by the source height: 8 x 1 | not executed | Subsampling.SubsampleXSwapsShape | Subsampling.SubsampleXIntended |
| src/main/java/org/apache/pdfbox/jbig2/image/Bitmaps.java:460-461 | `subsampleY` takes the width from the source width with the row step and keeps the source height | a 1 x 16 source with step 2 gives a 0 x 16 destination | the source width by the sampled height: 1 x 8 | not executed | Subsampling.SubsampleYSwapsShape | Subsampling.SubsampleYIntended |
