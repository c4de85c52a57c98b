/**
 * The segment header (SegmentHeader.java): the layout of sections 7.2.2 to
 * 7.2.7 of ISO/IEC 14492, read field by field from a bit stream, the lookup
 * of the referred-to segments, the table of payload classes and the memoised
 * payload.
 *
 * The layout is first stated as a pure function of the stream's bits
 * (`HeaderAt`), field by field; the class `SegmentHeader` then parses it the
 * way the Java class does, one `read*` step at a time, and each step is proved
 * against the matching part of the layout.
 */
module Segments {
  import opened BitUtil
  import opened BitStream

  // ---------------------------------------------------------------------
  // Payload classes
  // ---------------------------------------------------------------------

  /** The classes a segment type can be instantiated as. */
  datatype PayloadKind =
    | SymbolDictionary
    | TextRegion
    | PatternDictionary
    | HalftoneRegion
    | GenericRegion
    | GenericRefinementRegion
    | PageInformation
    | EndOfStripe
    | Profiles
    | Table

  /** `SEGMENT_TYPE_MAP`: the payload class registered for a type code, if any. */
  function KindOf(segmentType: int): (r: Option<PayloadKind>)
    ensures r.Some? ==> 0 <= segmentType < 64
  {
    if segmentType == 0 then Some(SymbolDictionary)
    else if segmentType in {4, 6, 7} then Some(TextRegion)
    else if segmentType == 16 then Some(PatternDictionary)
    else if segmentType in {20, 22, 23} then Some(HalftoneRegion)
    else if segmentType in {36, 38, 39} then Some(GenericRegion)
    else if segmentType in {40, 42, 43} then Some(GenericRefinementRegion)
    else if segmentType == 48 then Some(PageInformation)
    else if segmentType == 50 then Some(EndOfStripe)
    else if segmentType == 52 then Some(Profiles)
    else if segmentType == 53 then Some(Table)
    else None
  }

  /**
   * Every region segment type comes as an intermediate code `t`, an immediate
   * code `t + 2` and an immediate lossless code `t + 3`, all three decoded by
   * the same class; `t + 1` is unassigned.
   */
  lemma RegionTypeTriples(t: int)
    requires t in {4, 20, 36, 40}
    ensures KindOf(t).Some? && KindOf(t + 2) == KindOf(t) && KindOf(t + 3) == KindOf(t)
    ensures KindOf(t + 1) == None
  {
  }

  /** The codes with no registered class are exactly the ones outside the table. */
  lemma KindOfDomain(t: int)
    ensures KindOf(t).Some? <==>
      t in {0, 4, 6, 7, 16, 20, 22, 23, 36, 38, 39, 40, 42, 43, 48, 50, 52, 53}
  {
  }

  // ---------------------------------------------------------------------
  // The header layout, as a function of the stream's bits
  // ---------------------------------------------------------------------

  /** The `k`-bit big-endian field at bit `p`, if the stream holds it. */
  function FieldIfPresent(bits: seq<bool>, p: nat, k: nat): (r: Option<nat>)
    ensures r.Some? <==> p + k <= |bits|
    ensures r.Some? && k <= 32 ==> r.value < TWO32
    ensures r.Some? ==> r.value == BitsValue(bits[p..p + k])
  {
    if p + k <= |bits| then
      if k <= 32 then BitsValueFits32(bits[p..p + k]); Some(BitsValue(bits[p..p + k]))
      else Some(BitsValue(bits[p..p + k]))
    else None
  }

  /**
   * The number of retention bits in the long form of the referred-to count:
   * one for the segment itself and one per referred-to segment, padded to a
   * whole number of bytes.
   */
  function LongRetainBits(count: nat): (r: nat)
    ensures r % 8 == 0 && count + 1 <= r <= count + 8
  {
    8 * ((count + 8) / 8)
  }

  /**
   * Section 7.2.4 at bit `p`: the referred-to count and the bit after the
   * retention bits.  A 3-bit count of at most 4 is followed by 5 retention
   * bits; a larger 3-bit value announces a 29-bit count.
   */
  function CountAt(bits: seq<bool>, p: nat): (r: Option<(nat, nat)>)
    ensures r.Some? ==> p + 8 <= r.value.1 <= |bits|
    ensures r.Some? ==> (r.value.1 - p) % 8 == 0
  {
    match FieldIfPresent(bits, p, 3)
    case None => None
    case Some(short) =>
      if short <= 4 then
        if p + 8 <= |bits| then Some((short, p + 8)) else None
      else
        match FieldIfPresent(bits, p + 3, 29)
        case None => None
        case Some(count) =>
          var retain := LongRetainBits(count);
          var next := p + 32 + retain;
          assert next - p == 8 * (4 + retain / 8);
          if next <= |bits| then Some((count, next)) else None
  }

  /**
   * The two forms of the count: a short count of at most 4 ends one byte
   * on; a long count is followed by its retention bits.
   */
  lemma CountAtForms(bits: seq<bool>, p: nat)
    ensures var r := CountAt(bits, p);
      && (r.Some? ==> r.value.1 == p + 8 || r.value.1 == p + 32 + LongRetainBits(r.value.0))
      && (r.Some? && r.value.1 == p + 8 ==> r.value.0 <= 4)
      && (p + 8 <= |bits| && BitsValue(bits[p..p + 3]) <= 4 ==> r == Some((BitsValue(bits[p..p + 3]), p + 8)))
  {
    if p + 3 <= |bits| {
      var short := FieldIfPresent(bits, p, 3).value;
      if short > 4 && p + 32 <= |bits| {
        var count := FieldIfPresent(bits, p + 3, 29).value;
        assert p + 32 + LongRetainBits(count) != p + 8;
      }
    }
  }

  /**
   * Section 7.2.5: the width in bytes of each referred-to segment number, by
   * the segment's own (unsigned) number.
   */
  function ReferredSize(segmentNumber: nat): (r: nat)
    ensures r == 1 || r == 2 || r == 4
    ensures r == 1 <==> segmentNumber <= 256
    ensures r == 4 <==> 65536 < segmentNumber
  {
    if segmentNumber <= 256 then 1 else if segmentNumber <= 65536 then 2 else 4
  }

  /**
   * A segment only refers to segments with smaller numbers, and the width
   * `ReferredSize` chooses always holds every such number.
   */
  lemma ReferredSizeFits(segmentNumber: nat, referred: nat)
    requires referred < segmentNumber < TWO32
    ensures referred < Pow2(8 * ReferredSize(segmentNumber))
  {
    Pow2Of8();
    Pow2Add(8, 8);
    Pow2Of32();
  }

  /**
   * The width as `readReferredToSegmentsNumbers` computes it: the comparisons
   * are made on the signed `int` field `segmentNr`.
   */
  function ReferredSizeAsWritten(segmentNr: int): (r: nat)
    ensures r == 1 || r == 2 || r == 4
    ensures segmentNr < 0 ==> r == 1
    ensures r == 4 <==> 65536 < segmentNr
  {
    if segmentNr > 256 then (if segmentNr > 65536 then 4 else 2) else 1
  }

  /** Below 2^31 the signed comparison agrees with the unsigned one. */
  lemma ReferredSizeAsWrittenAgrees(segmentNumber: nat)
    requires segmentNumber <= INT_MAX
    ensures ReferredSizeAsWritten(Int32(segmentNumber)) == ReferredSize(segmentNumber)
  {
  }

  /**
   * From 2^31 on, the signed field is negative: the referred-to numbers are
   * read as single bytes although segment 0x8000_0000 may refer to segment
   * 0x7fff_ffff, which needs four.
   */
  lemma ReferredSizeAsWrittenTooNarrow()
    ensures ReferredSizeAsWritten(Int32(0x8000_0000)) == 1
    ensures ReferredSize(0x8000_0000) == 4
    ensures 0x7fff_ffff >= Pow2(8 * ReferredSizeAsWritten(Int32(0x8000_0000)))
  {
    Pow2Of8();
  }

  /**
   * Section 7.2.5 at bit `p`: `n` numbers of `w` bits each, every one kept in
   * a Java `int`, and the bit after the last.
   */
  function ReferredAt(bits: seq<bool>, p: nat, n: nat, w: nat): (r: Option<(seq<int>, nat)>)
    requires w <= 32
    ensures r.Some? ==> |r.value.0| == n && p <= r.value.1 <= |bits|
    ensures r.Some? ==> r.value.1 == p + n * w
    ensures r.Some? ==> forall i :: 0 <= i < n ==> IsInt32(r.value.0[i])
    decreases n
  {
    if n == 0 then (if p <= |bits| then Some(([], p)) else None)
    else
      match FieldIfPresent(bits, p, w)
      case None => None
      case Some(v) =>
        match ReferredAt(bits, p + w, n - 1, w)
        case None => None
        case Some((rest, next)) =>
          Some(([Int32(v)] + rest, next))
  }

  /** Whole-byte numbers that start on a byte boundary end on one. */
  lemma {:induction false} ReferredAtAligned(bits: seq<bool>, p: nat, n: nat, w: nat)
    requires w <= 32 && p % 8 == 0 && w % 8 == 0 && ReferredAt(bits, p, n, w).Some?
    ensures ReferredAt(bits, p, n, w).value.1 % 8 == 0
    decreases n
  {
    if n > 0 {
      assert p + w == 8 * (p / 8 + w / 8);
      ByteMultiple(p / 8 + w / 8);
      ReferredAtAligned(bits, p + w, n - 1, w);
    }
  }

  /**
   * Section 7.2.6 at bit `p`: the page association, one byte when the size
   * flag is 0 and four bytes otherwise, and the bit after it.
   */
  function PageAt(bits: seq<bool>, p: nat, sizeFlag: int): (r: Option<(int, nat)>)
    ensures r.Some? ==> r.value.1 == p + (if sizeFlag == 0 then 8 else 32) <= |bits|
    ensures r.Some? && sizeFlag == 0 ==> 0 <= r.value.0 < 256
  {
    if sizeFlag == 0 then
      match FieldIfPresent(bits, p, 8)
      case None => None
      case Some(v) => BitsValueByte(bits[p..p + 8]); Some((v, p + 8))
    else
      match FieldIfPresent(bits, p, 32)
      case None => None
      case Some(v) => Some((Int32(v), p + 32))
  }

  /** The fields of a header, as the layout gives them. */
  datatype HeaderFields = HeaderFields(
    segmentNr: int,
    retainFlag: nat,
    pageAssociationFieldSize: nat,
    segmentType: nat,
    referred: seq<int>,
    pageAssociation: int,
    segmentDataLength: nat,
    end: nat)

  /** The 6-bit segment type in the low bits of the flag byte at bit `f`. */
  function TypeAt(bits: seq<bool>, f: nat): (r: nat)
    requires f + 8 <= |bits|
    ensures r < 64
  {
    BitsValueBound(bits[f + 2..f + 8]);
    assert Pow2(6) == 64;
    BitsValue(bits[f + 2..f + 8])
  }

  /** The fields `parse` reads before the page association. */
  datatype Head = Head(number: nat, referred: seq<int>, next: nat)

  /**
   * Sections 7.2.2 to 7.2.5 from bit `s`: the unsigned segment number, the
   * flag byte, the referred-to count and numbers, as wide as
   * `ReferredSizeAsWritten` makes them from the number kept in an `int`;
   * `next` is the bit after them.
   */
  function HeadAt(bits: seq<bool>, s: nat): (r: Option<Head>)
    ensures r.Some? ==> s + 48 <= r.value.next <= |bits| && r.value.number < TWO32
  {
    if s + 40 <= |bits| then
      var number := BitsValue(bits[s..s + 32]);
      BitsValueWord(bits[s..s + 32]);
      match CountAt(bits, s + 40)
      case None => None
      case Some((count, p1)) =>
        match ReferredAt(bits, p1, count, 8 * ReferredSizeAsWritten(Int32(number)))
        case None => None
        case Some((referred, p2)) => Some(Head(number, referred, p2))
    else None
  }

  /**
   * Sections 7.2.6 and 7.2.7 from bit `p`: the page association, the data
   * length, and the bit after them.
   */
  function TailAt(bits: seq<bool>, p: nat, sizeFlag: int): (r: Option<(int, nat, nat)>)
    ensures r.Some? ==> (r.value.2 == p + 40 || r.value.2 == p + 64) && r.value.2 <= |bits|
  {
    match PageAt(bits, p, sizeFlag)
    case None => None
    case Some((page, p3)) =>
      match FieldIfPresent(bits, p3, 32)
      case None => None
      case Some(length) => Some((page, length, p3 + 32))
  }

  /**
   * The whole header starting at bit `s`; `None` when the stream ends inside
   * it: the head, then the page association and the data length.
   */
  function HeaderAt(bits: seq<bool>, s: nat): (r: Option<HeaderFields>)
    ensures r.Some? ==> s + 88 <= r.value.end <= |bits|
  {
    match HeadAt(bits, s)
    case None => None
    case Some(head) =>
      match TailAt(bits, head.next, Flag(bits[s + 33]))
      case None => None
      case Some((page, length, end)) =>
        Some(HeaderFields(Int32(head.number), Flag(bits[s + 32]), Flag(bits[s + 33]),
                          TypeAt(bits, s + 32), head.referred, page, length, end))
  }

  /** The head of a header that starts on a byte boundary ends on one. */
  lemma HeadAtAligned(bits: seq<bool>, s: nat)
    requires s % 8 == 0 && HeadAt(bits, s).Some?
    ensures HeadAt(bits, s).value.next % 8 == 0
  {
    var number := BitsValue(bits[s..s + 32]);
    var (count, p1) := CountAt(bits, s + 40).value;
    var w := 8 * ReferredSizeAsWritten(Int32(number));
    var k1 := (p1 - (s + 40)) / 8;
    assert p1 == 8 * (s / 8 + 5 + k1);
    ByteMultiple(s / 8 + 5 + k1);
    ByteMultiple(ReferredSizeAsWritten(Int32(number)));
    ReferredAtAligned(bits, p1, count, w);
  }

  /**
   * A header that starts on a byte boundary ends on one, so the segment data
   * that follows it starts on a whole byte; and no header is shorter than its
   * eleven fixed bytes.
   */
  lemma HeaderAtAligned(bits: seq<bool>, s: nat)
    requires s % 8 == 0 && HeaderAt(bits, s).Some?
    ensures HeaderAt(bits, s).value.end % 8 == 0
    ensures s + 88 <= HeaderAt(bits, s).value.end <= |bits|
  {
    HeadAtAligned(bits, s);
    var p2 := HeadAt(bits, s).value.next;
    var k := p2 / 8;
    assert p2 == 8 * k;
    if HeaderAt(bits, s).value.end == 8 * (k + 5) { ByteMultiple(k + 5); } else { ByteMultiple(k + 8); }
  }

  lemma ByteMultiple(k: int)
    ensures (8 * k) % 8 == 0
  {
  }

  // ---------------------------------------------------------------------
  // The document the referred-to segments are looked up in
  // ---------------------------------------------------------------------

  /** A handle on a segment header already known to the document. */
  type SegmentRef = nat

  /**
   * What `JBIG2Document` offers the header parser: the segments of each page
   * by number, and the global segments (JBIG2Document.java and JBIG2Page.java
   * are not part of this model; their lookups are these maps).
   */
  datatype Document = Document(pages: map<int, map<int, SegmentRef>>, globals: map<int, SegmentRef>)

  /** `page != null ? page.getSegment(nr) : document.getGlobalSegment(nr)`. */
  function ReferredSegment(doc: Document, pageAssociation: int, nr: int): (r: Option<SegmentRef>)
    ensures pageAssociation in doc.pages ==>
      r == (if nr in doc.pages[pageAssociation] then Some(doc.pages[pageAssociation][nr]) else None)
    ensures pageAssociation !in doc.pages ==>
      r == (if nr in doc.globals then Some(doc.globals[nr]) else None)
  {
    if pageAssociation in doc.pages then
      var segments := doc.pages[pageAssociation];
      if nr in segments then Some(segments[nr]) else None
    else if nr in doc.globals then Some(doc.globals[nr]) else None
  }

  /** The `rtSegments` array as Java allocates it: `count` nulls. */
  function NoSegments(count: nat): (r: seq<Option<SegmentRef>>)
    ensures |r| == count && forall i :: 0 <= i < count ==> r[i] == None
  {
    seq(count, _ => None)
  }

  /** The payload a header hands out: its class, and the data part it was read from. */
  datatype SegmentData = SegmentData(kind: PayloadKind, dataStartOffset: int, dataLength: int)

  // ---------------------------------------------------------------------
  // The parser
  // ---------------------------------------------------------------------

  class SegmentHeader {
    var segmentNr: int
    var segmentType: int
    var retainFlag: int
    var pageAssociation: int
    var pageAssociationFieldSize: int
    /** `null` until a header with referred-to segments is parsed. */
    var rtSegments: Option<seq<Option<SegmentRef>>>
    var segmentHeaderLength: int
    var segmentDataLength: int
    var segmentDataStartOffset: int
    /** The memoised payload (a soft reference in Java). */
    var segmentData: Option<SegmentData>

    /** The object before `parse` runs: every field at Java's default. */
    constructor ()
      ensures segmentNr == 0 && segmentType == 0 && retainFlag == 0
      ensures pageAssociation == 0 && pageAssociationFieldSize == 0
      ensures rtSegments == None && segmentData == None
      ensures segmentHeaderLength == 0 && segmentDataLength == 0 && segmentDataStartOffset == 0
    {
      segmentNr, segmentType, retainFlag := 0, 0, 0;
      pageAssociation, pageAssociationFieldSize := 0, 0;
      rtSegments, segmentData := None, None;
      segmentHeaderLength, segmentDataLength, segmentDataStartOffset := 0, 0, 0;
    }

    /** Section 7.2.2: the 32-bit segment number, kept as a signed `int`. */
    method ReadSegmentNumber(sis: BitReader) returns (o: Outcome)
      modifies this`segmentNr, sis`pos
      ensures match FieldIfPresent(sis.bits, old(sis.pos), 32)
        case None => o == Failure(EndOfStream)
        case Some(v) => o == Success && segmentNr == Int32(v) && sis.pos == old(sis.pos) + 32
    {
      var v := sis.ReadBits(32);
      if v.Fail? { return Failure(v.error); }
      segmentNr := Int32(v.value);
      o := Success;
    }

    /** Section 7.2.3: retain flag, page-association size flag, 6-bit type. */
    method ReadSegmentHeaderFlag(sis: BitReader) returns (o: Outcome)
      modifies this`retainFlag, this`pageAssociationFieldSize, this`segmentType, sis`pos
      ensures var p := old(sis.pos);
        if p + 8 <= |sis.bits| then
          o == Success && sis.pos == p + 8
          && retainFlag == Flag(sis.bits[p])
          && pageAssociationFieldSize == Flag(sis.bits[p + 1])
          && segmentType == TypeAt(sis.bits, p)
        else o == Failure(EndOfStream)
    {
      var retain := sis.ReadBit();
      if retain.Fail? { return Failure(retain.error); }
      retainFlag := retain.value;
      var size := sis.ReadBit();
      if size.Fail? { return Failure(size.error); }
      pageAssociationFieldSize := size.value;
      var t := sis.ReadBits(6);
      if t.Fail? { return Failure(t.error); }
      segmentType := t.value;
      o := Success;
    }

    /** Reads and drops `n` retention bits, one at a time. */
    static method SkipRetainBits(sis: BitReader, n: nat) returns (o: Outcome)
      requires n > 0
      modifies sis`pos
      ensures old(sis.pos) + n <= |sis.bits| ==> o == Success && sis.pos == old(sis.pos) + n
      ensures old(sis.pos) + n > |sis.bits| ==> o == Failure(EndOfStream)
    {
      var i := 0;
      while i < n
        invariant 0 <= i <= n && sis.pos == old(sis.pos) + i
        invariant i > 0 ==> sis.pos <= |sis.bits|
      {
        var b := sis.ReadBit();
        if b.Fail? { return Failure(b.error); }
        i := i + 1;
      }
      o := Success;
    }

    /** Section 7.2.4: the number of referred-to segments. */
    method ReadAmountOfReferredToSegments(sis: BitReader) returns (r: Result<nat>)
      modifies sis`pos
      ensures match CountAt(sis.bits, old(sis.pos))
        case None => r == Fail(EndOfStream)
        case Some((count, next)) => r == Ok(count) && sis.pos == next
    {
      var short := sis.ReadBits(3);
      if short.Fail? { return Fail(short.error); }
      var count := short.value;
      if count <= 4 {
        var o := SkipRetainBits(sis, 5);
        if o.Failure? { return Fail(o.error); }
      } else {
        var long := sis.ReadBits(29);
        if long.Fail? { return Fail(long.error); }
        count := long.value;
        var arrayLength := 8 * ((count + 8) / 8);
        var o := SkipRetainBits(sis, arrayLength);
        if o.Failure? { return Fail(o.error); }
      }
      r := Ok(count);
    }

    /**
     * Section 7.2.5: the referred-to segment numbers.  `rtSegments` is
     * allocated (all `null`) only when there is at least one.
     */
    method ReadReferredToSegmentsNumbers(sis: BitReader, count: nat) returns (r: Result<seq<int>>)
      requires IsInt32(segmentNr)
      modifies this`rtSegments, sis`pos
      ensures match ReferredAt(sis.bits, old(sis.pos), count, 8 * ReferredSizeAsWritten(segmentNr))
        case None => r == Fail(EndOfStream)
        case Some((numbers, next)) => r == Ok(numbers) && sis.pos == next
      ensures count > 0 ==> rtSegments == Some(NoSegments(count))
      ensures count == 0 ==> rtSegments == old(rtSegments)
    {
      var w := 8 * ReferredSizeAsWritten(segmentNr);
      if count > 0 {
        rtSegments := Some(NoSegments(count));
      }
      r := ReadNumbers(sis, count, w);
    }

    /** The loop of `readReferredToSegmentsNumbers`: `count` numbers of `w` bits each. */
    static method ReadNumbers(sis: BitReader, count: nat, w: nat) returns (r: Result<seq<int>>)
      requires w <= 32
      modifies sis`pos
      ensures match ReferredAt(sis.bits, old(sis.pos), count, w)
        case None => r == Fail(EndOfStream)
        case Some((numbers, next)) => r == Ok(numbers) && sis.pos == next
    {
      ghost var bits, p0 := sis.bits, sis.pos;
      var numbers: seq<int> := [];
      PrependEmpty(ReferredAt(bits, p0, count, w));
      var i := 0;
      while i < count
        invariant 0 <= i <= count && |numbers| == i
        invariant ReferredAt(bits, p0, count, w) == Prepend(numbers, ReferredAt(bits, sis.pos, count - i, w))
      {
        ghost var p := sis.pos;
        var v := sis.ReadBits(w);
        if v.Fail? {
          return Fail(v.error);
        }
        PrependCons(numbers, Int32(v.value), ReferredAt(bits, p + w, count - i - 1, w));
        numbers := numbers + [Int32(v.value)];
        i := i + 1;
      }
      if sis.pos > |sis.bits| { return Fail(EndOfStream); }
      assert numbers + [] == numbers;
      r := Ok(numbers);
    }

    /**
     * The first four reads of `parse` (sections 7.2.2 to 7.2.5), one after
     * the other: the numbers of the referred-to segments, or the end of the
     * stream inside them.
     */
    method ReadHead(sis: BitReader) returns (r: Result<seq<int>>)
      modifies this`segmentNr, this`retainFlag, this`pageAssociationFieldSize, this`segmentType
      modifies this`rtSegments, sis`pos
      ensures match HeadAt(sis.bits, old(sis.pos))
        case None => r == Fail(EndOfStream)
        case Some(head) =>
          && r == Ok(head.referred) && sis.pos == head.next
          && segmentNr == Int32(head.number)
          && retainFlag == Flag(sis.bits[old(sis.pos) + 32])
          && pageAssociationFieldSize == Flag(sis.bits[old(sis.pos) + 33])
          && segmentType == TypeAt(sis.bits, old(sis.pos) + 32)
          && (|head.referred| > 0 ==> rtSegments == Some(NoSegments(|head.referred|)))
          && (|head.referred| == 0 ==> rtSegments == old(rtSegments))
    {
      var o := ReadSegmentNumber(sis);
      if o.Failure? { return Fail(o.error); }
      o := ReadSegmentHeaderFlag(sis);
      if o.Failure? { return Fail(o.error); }
      var count := ReadAmountOfReferredToSegments(sis);
      if count.Fail? { return Fail(count.error); }
      r := ReadReferredToSegmentsNumbers(sis, count.value);
    }

    /**
     * Section 7.2.6: the page association, then the referred-to segments
     * looked up in that page if the document has it, otherwise among the
     * globals, in the order of their numbers.
     */
    method ReadSegmentPageAssociation(doc: Document, sis: BitReader, count: nat, numbers: seq<int>)
      returns (o: Outcome)
      requires |numbers| == count
      requires count > 0 ==> rtSegments.Some? && |rtSegments.value| == count
      modifies this`pageAssociation, this`rtSegments, sis`pos
      ensures match PageAt(sis.bits, old(sis.pos), pageAssociationFieldSize)
        case None => o == Failure(EndOfStream)
        case Some((page, next)) =>
          o == Success && sis.pos == next && pageAssociation == page
          && (count > 0 ==>
                && rtSegments.Some? && |rtSegments.value| == count
                && forall i :: 0 <= i < count ==>
                     rtSegments.value[i] == ReferredSegment(doc, page, numbers[i]))
          && (count == 0 ==> rtSegments == old(rtSegments))
    {
      if pageAssociationFieldSize == 0 {
        var v := sis.ReadBits(8);
        if v.Fail? { return Failure(v.error); }
        assert Pow2(8) == 256;
        pageAssociation := v.value;
      } else {
        var v := sis.ReadBits(32);
        if v.Fail? { return Failure(v.error); }
        pageAssociation := Int32(v.value);
      }
      if count > 0 {
        var segments := rtSegments.value;
        var i := 0;
        while i < count
          invariant 0 <= i <= count && |segments| == count
          invariant forall j :: 0 <= j < i ==>
            segments[j] == ReferredSegment(doc, pageAssociation, numbers[j])
        {
          segments := segments[i := ReferredSegment(doc, pageAssociation, numbers[i])];
          i := i + 1;
        }
        rtSegments := Some(segments);
      }
      o := Success;
    }

    /** Section 7.2.7: the data length, an unsigned 32-bit count of bytes. */
    method ReadSegmentDataLength(sis: BitReader) returns (o: Outcome)
      modifies this`segmentDataLength, sis`pos
      ensures match FieldIfPresent(sis.bits, old(sis.pos), 32)
        case None => o == Failure(EndOfStream)
        case Some(v) => o == Success && segmentDataLength == v && sis.pos == old(sis.pos) + 32
    {
      var v := sis.ReadBits(32);
      if v.Fail? { return Failure(v.error); }
      segmentDataLength := v.value;
      o := Success;
    }

    /** The last two reads of `parse` (sections 7.2.6 and 7.2.7). */
    method ReadTail(doc: Document, sis: BitReader, numbers: seq<int>) returns (o: Outcome)
      requires |numbers| > 0 ==> rtSegments.Some? && |rtSegments.value| == |numbers|
      modifies this`pageAssociation, this`rtSegments, this`segmentDataLength, sis`pos
      ensures match TailAt(sis.bits, old(sis.pos), pageAssociationFieldSize)
        case None => o == Failure(EndOfStream)
        case Some((page, length, end)) =>
          && o == Success && sis.pos == end && pageAssociation == page && segmentDataLength == length
          && (|numbers| > 0 ==>
                && rtSegments.Some? && |rtSegments.value| == |numbers|
                && forall i :: 0 <= i < |numbers| ==>
                     rtSegments.value[i] == ReferredSegment(doc, page, numbers[i]))
          && (|numbers| == 0 ==> rtSegments == old(rtSegments))
    {
      o := ReadSegmentPageAssociation(doc, sis, |numbers|, numbers);
      if o.Failure? { return; }
      o := ReadSegmentDataLength(sis);
    }

    /**
     * The fields hold the header `h`: each value read, the referred-to
     * segments looked up, and the two lengths and offsets derived from where
     * the header ends (`rt0` and `start0` are the fields' values before).
     */
    ghost predicate Describes(h: HeaderFields, doc: Document, offset: nat, sequential: bool,
                              rt0: Option<seq<Option<SegmentRef>>>, start0: int)
      reads this
    {
      && segmentNr == h.segmentNr && retainFlag == h.retainFlag
      && pageAssociationFieldSize == h.pageAssociationFieldSize
      && segmentType == h.segmentType && pageAssociation == h.pageAssociation
      && segmentDataLength == h.segmentDataLength
      && (|h.referred| == 0 ==> rtSegments == rt0)
      && (|h.referred| > 0 ==>
            && rtSegments.Some? && |rtSegments.value| == |h.referred|
            && forall i :: 0 <= i < |h.referred| ==>
                 rtSegments.value[i] == ReferredSegment(doc, h.pageAssociation, h.referred[i]))
      && segmentHeaderLength == h.end / 8 - offset
      && segmentDataStartOffset == (if sequential then h.end / 8 else start0)
    }

    /**
     * `parse`: seeks to `offset` and reads the header; the data start offset
     * is the stream position after it, but only for the sequential
     * organisation (the random-access one sets it once all headers are read).
     */
    method Parse(doc: Document, sis: BitReader, offset: nat, sequential: bool) returns (o: Outcome)
      modifies this`segmentNr, this`segmentType, this`retainFlag, this`pageAssociation
      modifies this`pageAssociationFieldSize, this`rtSegments, this`segmentHeaderLength
      modifies this`segmentDataLength, this`segmentDataStartOffset, sis`pos
      ensures HeaderAt(sis.bits, 8 * offset).None? ==> o == Failure(EndOfStream)
      ensures HeaderAt(sis.bits, 8 * offset).Some? ==>
        o == Success && sis.pos == HeaderAt(sis.bits, 8 * offset).value.end
        && Describes(HeaderAt(sis.bits, 8 * offset).value, doc, offset, sequential,
                     old(rtSegments), old(segmentDataStartOffset))
      ensures segmentData == old(segmentData)
    {
      sis.Seek(offset);
      var numbers := ReadHead(sis);
      if numbers.Fail? { return Failure(numbers.error); }
      o := ReadTail(doc, sis, numbers.value);
      if o.Failure? { return; }
      if sequential {
        segmentDataStartOffset := sis.StreamPosition();
      }
      segmentHeaderLength := sis.StreamPosition() - offset;
    }

    /**
     * `getSegmentData`: the held payload if there is one; otherwise a new
     * instance of the class registered for the type, initialised on the
     * segment's data (whether that initialisation succeeds is `initSucceeds`).
     * An unknown type and a failing initialisation both raise the same
     * RuntimeException in Java and leave nothing memoised.
     */
    method GetSegmentData(initSucceeds: bool) returns (r: Result<SegmentData>)
      modifies this`segmentData
      ensures old(segmentData).Some? ==> r == Ok(old(segmentData).value) && segmentData == old(segmentData)
      ensures old(segmentData).None? && KindOf(segmentType).None? ==>
        r == Fail(UnknownSegmentType) && segmentData == None
      ensures old(segmentData).None? && KindOf(segmentType).Some? && !initSucceeds ==>
        r == Fail(InstantiationFailed) && segmentData == None
      ensures old(segmentData).None? && KindOf(segmentType).Some? && initSucceeds ==>
        r == Ok(SegmentData(KindOf(segmentType).value, segmentDataStartOffset, segmentDataLength))
        && segmentData == Some(r.value)
    {
      if segmentData.Some? {
        return Ok(segmentData.value);
      }
      var kind := KindOf(segmentType);
      if kind.None? {
        return Fail(UnknownSegmentType);
      }
      if !initSucceeds {
        return Fail(InstantiationFailed);
      }
      var data := SegmentData(kind.value, segmentDataStartOffset, segmentDataLength);
      segmentData := Some(data);
      r := Ok(data);
    }

    /** `cleanSegmentData`: drops the payload, so the next request builds it again. */
    method CleanSegmentData()
      modifies this`segmentData
      ensures segmentData == None
    {
      segmentData := None;
    }
  }

  /** Puts `xs` in front of the numbers of a successful read. */
  function Prepend(xs: seq<int>, r: Option<(seq<int>, nat)>): Option<(seq<int>, nat)>
  {
    match r
    case None => None
    case Some((ys, next)) => Some((xs + ys, next))
  }

  lemma PrependEmpty(r: Option<(seq<int>, nat)>)
    ensures Prepend([], r) == r
  {
    match r
    case None =>
    case Some((ys, q)) => assert [] + ys == ys;
  }

  lemma PrependCons(xs: seq<int>, x: int, r: Option<(seq<int>, nat)>)
    ensures Prepend(xs, match r case None => None case Some((ys, q)) => Some(([x] + ys, q)))
      == Prepend(xs + [x], r)
  {
    match r
    case None =>
    case Some((ys, q)) => assert xs + ([x] + ys) == (xs + [x]) + ys;
  }

  /**
   * `new SegmentHeader(document, sis, offset, organisationType)`: allocates
   * the header and parses it; a stream that ends inside the header raises.
   */
  method NewSegmentHeader(doc: Document, sis: BitReader, offset: nat, sequential: bool)
    returns (r: Result<SegmentHeader>)
    modifies sis`pos
    ensures HeaderAt(sis.bits, 8 * offset).None? <==> r == Fail(EndOfStream)
    ensures r.Ok? ==>
      && fresh(r.value) && r.value.segmentData == None
      && r.value.segmentNr == HeaderAt(sis.bits, 8 * offset).value.segmentNr
      && r.value.segmentHeaderLength == HeaderAt(sis.bits, 8 * offset).value.end / 8 - offset
  {
    var h := new SegmentHeader();
    var o := h.Parse(doc, sis, offset, sequential);
    if o.Failure? { return Fail(o.error); }
    r := Ok(h);
  }
}
