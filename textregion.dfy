/**
 * The text region segment of TextRegion.java (sections 6.4 and 7.4.3 of
 * ITU-T T.88): the region and Huffman flags, the choice of the Huffman
 * table each quantity is coded with, the input check, the clamp on the
 * number of symbol instances, the symbol ID code lengths, and the loop
 * that places each symbol instance, strip by strip, onto the region.
 *
 * The arithmetic and Huffman decoders, the symbol dictionaries and the
 * generic refinement region decoder are other objects: the integers they
 * decode, the symbols they provide and the bitmaps they refine enter as
 * parameters, consumed in the order the decoder asks for them.
 */
module Text {
  import opened BitUtil
  import opened BitStream
  import opened PackedBitmap
  import opened Compositing
  import opened Blitting

  // ---------------------------------------------------------------------------
  // Text region segment flags (section 7.4.3.1.1)

  /** The sixteen flag bits, most significant first. */
  datatype RegionFlags = RegionFlags(
    sbrTemplate: nat, sbdsOffset: int, defaultPixel: nat, combinationOperator: CombinationOperator,
    isTransposed: nat, referenceCorner: nat, logSBStrips: nat, useRefinement: bool,
    isHuffmanEncoded: bool)

  /** A five-bit field read as two's complement (`if (v > 0x0f) v -= 0x20`). */
  function SignedFive(v: nat): (r: int)
    requires v < 32
    ensures -16 <= r < 16 && (v - r) % 32 == 0
  {
    if v > 0x0f then v - 0x20 else v
  }

  /** Two's complement is the only reading of the field in -16..15 that agrees with it mod 32. */
  lemma SignedFiveUnique(v: nat, r: int)
    requires v < 32 && -16 <= r < 16 && (v - r) % 32 == 0
    ensures r == SignedFive(v)
  {
    var q := (v - r) / 32;
    assert v - r == 32 * q;
  }

  /** SBSTRIPS, `1 << LOGSBSTRIPS`. */
  function StripCount(logSBStrips: nat): (r: nat)
    requires logSBStrips < 4
    ensures r == Pow2(logSBStrips)
    ensures r == 1 || r == 2 || r == 4 || r == 8
  {
    if logSBStrips == 0 then 1 else 2 * StripCount(logSBStrips - 1)
  }

  /** The flags that start at bit `p`: SBRTEMPLATE, SBDSOFFSET, SBDEFPIXEL, SBCOMBOP, TRANSPOSED, REFCORNER, LOGSBSTRIPS, SBREFINE, SBHUFF. */
  function RegionFlagsAt(bits: seq<bool>, p: nat): (r: Option<RegionFlags>)
    ensures r.Some? <==> p + 16 <= |bits|
    ensures r.Some? ==>
      && r.value.sbrTemplate <= 1 && -16 <= r.value.sbdsOffset < 16 && r.value.defaultPixel <= 1
      && r.value.combinationOperator != REPLACE && r.value.isTransposed <= 1
      && r.value.referenceCorner < 4 && r.value.logSBStrips < 4
  {
    if p + 16 <= |bits| then
      assert Pow2(5) == 32;
      Some(RegionFlags(Flag(bits[p]), SignedFive(FieldAt(bits, p + 1, 5)), Flag(bits[p + 6]),
                       OperatorFromCode(TwoBits(bits, p + 7)), Flag(bits[p + 9]), TwoBits(bits, p + 10),
                       TwoBits(bits, p + 12), bits[p + 14], bits[p + 15]))
    else None
  }

  // ---------------------------------------------------------------------------
  // Text region segment Huffman flags (section 7.4.3.1.2)

  /**
   * The table selectors: two bits each for SBHUFFFS, DS, DT, RDW, RDH, RDX
   * and RDY, one bit for SBHUFFRSIZE.
   */
  datatype HuffmanFlags = HuffmanFlags(fs: nat, ds: nat, dt: nat, rdw: nat, rdh: nat, rdx: nat,
                                       rdy: nat, rSize: nat)

  /** The Huffman flags at bit `p`: an unused bit, then RSIZE, RDY, RDX, RDH, RDW, DT, DS and FS. */
  function HuffmanFlagsAt(bits: seq<bool>, p: nat): (r: Option<HuffmanFlags>)
    ensures r.Some? <==> p + 16 <= |bits|
    ensures r.Some? ==> SelectorsInRange(r.value)
  {
    if p + 16 <= |bits| then
      Some(HuffmanFlags(TwoBits(bits, p + 14), TwoBits(bits, p + 12), TwoBits(bits, p + 10),
                        TwoBits(bits, p + 8), TwoBits(bits, p + 6), TwoBits(bits, p + 4),
                        TwoBits(bits, p + 2), Flag(bits[p + 1])))
    else None
  }

  /** What the selector fields' widths allow. */
  predicate SelectorsInRange(f: HuffmanFlags)
  {
    f.fs < 4 && f.ds < 4 && f.dt < 4 && f.rdw < 4 && f.rdh < 4 && f.rdx < 4 && f.rdy < 4 && f.rSize <= 1
  }

  /** The selector value 2 is not permitted for FS, RDW, RDH, RDX or RDY; DS and DT may take it. */
  predicate SelectorRejected(f: HuffmanFlags)
  {
    f.fs == 2 || f.rdw == 2 || f.rdh == 2 || f.rdx == 2 || f.rdy == 2
  }

  /** Without refinement, the refinement selectors are 0. */
  function WithoutRefinementTables(f: HuffmanFlags): HuffmanFlags
  {
    f.(rSize := 0, rdy := 0, rdx := 0, rdw := 0, rdh := 0)
  }

  // ---------------------------------------------------------------------------
  // Choice of the Huffman tables (section 7.4.3.1.6)

  /** The quantities coded with a Huffman table, in the order their user tables are referred to. */
  datatype TableField = FS | DS | DT | RDW | RDH | RDX | RDY | RSIZE

  const TABLE_FIELDS: seq<TableField> := [FS, DS, DT, RDW, RDH, RDX, RDY, RSIZE]

  function FieldOrder(k: TableField): (r: nat)
    ensures r < 8 && TABLE_FIELDS[r] == k
  {
    match k
    case FS => 0 case DS => 1 case DT => 2 case RDW => 3
    case RDH => 4 case RDX => 5 case RDY => 6 case RSIZE => 7
  }

  function Selector(f: HuffmanFlags, k: TableField): nat
  {
    match k
    case FS => f.fs case DS => f.ds case DT => f.dt case RDW => f.rdw
    case RDH => f.rdh case RDX => f.rdx case RDY => f.rdy case RSIZE => f.rSize
  }

  /** A selector of 3 (or an RSIZE flag of 1) asks for a table from a referred table segment. */
  predicate UsesUserTable(f: HuffmanFlags, k: TableField)
  {
    if k == RSIZE then f.rSize != 0 else Selector(f, k) == 3
  }

  /** How many of the first `n` quantities are coded with user tables. */
  function UserTablesBefore(f: HuffmanFlags, n: nat): (r: nat)
    requires n <= 8
    ensures r <= n
  {
    if n == 0 then 0
    else UserTablesBefore(f, n - 1) + (if UsesUserTable(f, TABLE_FIELDS[n - 1]) then 1 else 0)
  }

  /** A standard table B.n, or the user table at a position among the referred table segments. */
  datatype TableChoice = StandardTable(number: nat) | UserTable(position: nat)

  /**
   * The table `decodeDfS`, `decodeIdS`, `decodeStripT`/`decodeDT`,
   * `decodeRdw`, `decodeRdh`, `decodeRdx`, `decodeRdy` and
   * `decodeSymInRefSize` decode with: a standard table offset by the
   * selector, or the user table whose position counts the quantities before
   * it that also use user tables.
   */
  function TableFor(f: HuffmanFlags, k: TableField): TableChoice
  {
    if UsesUserTable(f, k) then UserTable(UserTablesBefore(f, FieldOrder(k)))
    else match k
      case FS => StandardTable(6 + f.fs)
      case DS => StandardTable(8 + f.ds)
      case DT => StandardTable(11 + f.dt)
      case RSIZE => StandardTable(1)
      case _ => StandardTable(14 + Selector(f, k))
  }

  /** Counting user tables is monotone in the number of quantities counted. */
  lemma {:induction false} UserTablesBeforeMonotone(f: HuffmanFlags, m: nat, n: nat)
    requires m <= n <= 8
    ensures UserTablesBefore(f, m) <= UserTablesBefore(f, n)
    decreases n
  {
    if m < n {
      UserTablesBeforeMonotone(f, m, n - 1);
    }
  }

  /**
   * User tables are taken in order: of two quantities that both use one,
   * the earlier takes the earlier table segment.
   */
  lemma UserTablesInOrder(f: HuffmanFlags, a: TableField, b: TableField)
    requires UsesUserTable(f, a) && UsesUserTable(f, b) && FieldOrder(a) < FieldOrder(b)
    ensures TableFor(f, a).position < TableFor(f, b).position
  {
    UserTablesBeforeMonotone(f, FieldOrder(a) + 1, FieldOrder(b));
  }

  /**
   * The standard tables each quantity may use: B.6-B.7 for FS, B.8-B.10
   * for DS, B.11-B.13 for DT, B.14-B.15 for the refinement deltas and B.1
   * for RSIZE.
   */
  predicate TableInRange(f: HuffmanFlags, k: TableField)
  {
    var t := TableFor(f, k);
    t.StandardTable? ==>
      match k
      case FS => 6 <= t.number <= 7
      case DS => 8 <= t.number <= 10
      case DT => 11 <= t.number <= 13
      case RSIZE => t.number == 1
      case _ => 14 <= t.number <= 15
  }

  /** The selectors `checkInput` accepts are exactly those that name only tables defined for their quantity. */
  lemma AcceptedIffTablesInRange(f: HuffmanFlags)
    requires SelectorsInRange(f)
    ensures !SelectorRejected(f) <==> forall k: TableField :: TableInRange(f, k)
  {
    if SelectorRejected(f) {
      if f.fs == 2 { assert !TableInRange(f, FS); }
      else if f.rdw == 2 { assert !TableInRange(f, RDW); }
      else if f.rdh == 2 { assert !TableInRange(f, RDH); }
      else if f.rdx == 2 { assert !TableInRange(f, RDX); }
      else { assert !TableInRange(f, RDY); }
    }
  }

  /**
   * Resetting the refinement selectors leaves the tables of FS, DS and DT
   * as they were and codes every refinement quantity with a standard table.
   */
  lemma ResetKeepsSymbolTables(f: HuffmanFlags, k: TableField)
    ensures var g := WithoutRefinementTables(f);
      (k == FS || k == DS || k == DT ==> TableFor(g, k) == TableFor(f, k))
      && (k == RSIZE ==> TableFor(g, k) == StandardTable(1))
      && (k == RDW || k == RDH || k == RDX || k == RDY ==> TableFor(g, k) == StandardTable(14))
  {
    var g := WithoutRefinementTables(f);
    assert UserTablesBefore(g, 1) == UserTablesBefore(f, 1);
    assert UserTablesBefore(g, 2) == UserTablesBefore(f, 2);
  }

  // ---------------------------------------------------------------------------
  // Referred segments

  /** A referred-to segment: its type and, for a symbol dictionary (type 0), the symbols it exports. */
  datatype Referred = Referred(segmentType: int, dictionary: seq<Bitmap>)

  /** The number of table segments (type 53) among the first `n` referred segments. */
  function TablesBefore(rs: seq<Option<Referred>>, n: nat): (r: nat)
    requires n <= |rs|
    ensures r <= n
  {
    if n == 0 then 0
    else TablesBefore(rs, n - 1) + (if rs[n - 1].Some? && rs[n - 1].value.segmentType == 53 then 1 else 0)
  }

  /** No missing segment among the first `n`. */
  predicate PresentUpTo(rs: seq<Option<Referred>>, n: nat)
    requires n <= |rs|
  {
    forall j :: 0 <= j < n ==> rs[j].Some?
  }

  /**
   * The symbols `initSymbols` gathers: the dictionaries of the referred
   * symbol dictionary segments, in referral order.  A missing segment is a
   * null entry that `getSegmentType()` dereferences.
   */
  function SymbolsOf(rs: seq<Option<Referred>>): (r: Result<seq<Bitmap>>)
    ensures r.Fail? <==> !PresentUpTo(rs, |rs|)
    ensures r.Fail? ==> r.error == NullReference
    decreases |rs|
  {
    if |rs| == 0 then Ok([])
    else
      var last := rs[|rs| - 1];
      match SymbolsOf(rs[..|rs| - 1])
      case Fail(e) => Fail(e)
      case Ok(init) =>
        if last.None? then Fail(NullReference)
        else if last.value.segmentType == 0 then Ok(init + last.value.dictionary)
        else Ok(init)
  }

  /** A missing segment makes the gathering fail however many segments follow it. */
  lemma {:induction false} SymbolsOfPrefixFails(rs: seq<Option<Referred>>, n: nat)
    requires n <= |rs| && !PresentUpTo(rs, n)
    ensures SymbolsOf(rs).Fail?
  {
    assert !PresentUpTo(rs, |rs|);
  }

  /** Referred segments contribute their symbols in order: the gathering distributes over concatenation. */
  lemma {:induction false} SymbolsOfAppend(a: seq<Option<Referred>>, b: seq<Option<Referred>>)
    requires SymbolsOf(a).Ok? && SymbolsOf(b).Ok?
    ensures SymbolsOf(a + b) == Ok(SymbolsOf(a).value + SymbolsOf(b).value)
    decreases |b|
  {
    if |b| == 0 {
      assert a + b == a;
      assert SymbolsOf(a).value + [] == SymbolsOf(a).value;
    } else {
      var b0 := b[..|b| - 1];
      var last := b[|b| - 1];
      assert (a + b)[..|a + b| - 1] == a + b0;
      assert (a + b)[|a + b| - 1] == last;
      assert SymbolsOf(b0).Ok? && last.Some?;
      SymbolsOfAppend(a, b0);
      var sa, sb0 := SymbolsOf(a).value, SymbolsOf(b0).value;
      assert SymbolsOf(a + b0) == Ok(sa + sb0);
      if last.value.segmentType == 0 {
        assert SymbolsOf(b).value == sb0 + last.value.dictionary;
        assert (sa + sb0) + last.value.dictionary == sa + (sb0 + last.value.dictionary);
      }
    }
  }

  // ---------------------------------------------------------------------------
  // Symbol ID Huffman decoding table (section 7.4.3.1.7)

  /** A line of a Huffman table built by the decoder: a prefix length and the value it codes. */
  datatype Code = Code(prefixLength: int, value: int)

  /** The run-code table lines of the first `n` four-bit prefix lengths at bit `p`: one line per non-zero length. */
  function RunCodeTableAt(bits: seq<bool>, p: nat, n: nat): (r: seq<Code>)
    requires n == 0 || p + 4 * n <= |bits|
    ensures forall k :: 0 <= k < |r| ==>
      0 <= r[k].value < n && 0 < r[k].prefixLength < 16
      && r[k].prefixLength == FieldAt(bits, p + 4 * r[k].value, 4)
    ensures forall k, l :: 0 <= k < l < |r| ==> r[k].value < r[l].value
    decreases n
  {
    if n == 0 then []
    else
      assert Pow2(4) == 16;
      var prefLen := FieldAt(bits, p + 4 * (n - 1), 4);
      RunCodeTableAt(bits, p, n - 1) + (if prefLen > 0 then [Code(prefLen, n - 1)] else [])
  }

  /** Reading one more prefix length adds its line when it is non-zero. */
  lemma RunCodeTableStep(bits: seq<bool>, p: nat, n: nat, prefLen: nat)
    requires p + 4 * (n + 1) <= |bits| && prefLen == FieldAt(bits, p + 4 * n, 4)
    ensures RunCodeTableAt(bits, p, n + 1)
      == RunCodeTableAt(bits, p, n) + (if prefLen > 0 then [Code(prefLen, n)] else [])
  {
  }

  /** Every non-zero prefix length has its line. */
  lemma {:induction false} RunCodeTableComplete(bits: seq<bool>, p: nat, n: nat, i: nat)
    requires p + 4 * n <= |bits| && i < n && FieldAt(bits, p + 4 * i, 4) > 0
    ensures Code(FieldAt(bits, p + 4 * i, 4), i) in RunCodeTableAt(bits, p, n)
    decreases n
  {
    if i < n - 1 {
      RunCodeTableComplete(bits, p, n - 1, i);
    }
  }

  /** A run code and the value of the extra bits that follow it (two, three or seven bits for 32, 33, 34). */
  datatype RunToken = RunToken(code: int, extra: nat)

  /** The number of code lengths a run code stands for; 0 for a code outside 32..34. */
  function RunLength(t: RunToken): nat
  {
    if t.code == 32 || t.code == 33 then 3 + t.extra
    else if t.code == 34 then 11 + t.extra
    else 0
  }

  /** `n` copies of `len`. */
  function Repeat(len: int, n: nat): (r: seq<int>)
    ensures |r| == n && forall j :: 0 <= j < n ==> r[j] == len
  {
    seq(n, _ => len)
  }

  /**
   * The symbol ID code lengths, one per symbol, as section 7.4.3.1.7 lays
   * them out: a code below 32 is a length, 32 copies the previous symbol's
   * length 3-6 times, 33 and 34 give runs of zeros; decoding stops once
   * there is a length for every symbol.  `None` when the codes run out.
   */
  function LengthsFrom(tokens: seq<RunToken>, i: nat, amount: int, lengths: seq<int>): (r: Option<seq<int>>)
    ensures r.Some? ==> |r.value| >= amount && |r.value| >= |lengths| && r.value[..|lengths|] == lengths
    decreases |tokens| - i
  {
    if |lengths| >= amount then Some(lengths)
    else if i >= |tokens| then None
    else
      var next := NextLengths(lengths, tokens[i]);
      var r := LengthsFrom(tokens, i + 1, amount, next);
      assert r.Some? ==> r.value[..|lengths|] == next[..|lengths|];
      r
  }

  /** One step of the layout: below the needed count, the next code extends the lengths. */
  lemma LengthsFromStep(tokens: seq<RunToken>, i: nat, amount: int, lengths: seq<int>)
    requires |lengths| < amount && i < |tokens|
    ensures LengthsFrom(tokens, i, amount, lengths) == LengthsFrom(tokens, i + 1, amount, NextLengths(lengths, tokens[i]))
  {
  }

  /** The lengths after one more code: the length itself, or the run it stands for. */
  function NextLengths(lengths: seq<int>, t: RunToken): (r: seq<int>)
    ensures |r| > |lengths| || (t.code >= 32 && RunLength(t) == 0 && r == lengths)
    ensures r[..|lengths|] == lengths
  {
    if t.code < 32 then lengths + [t.code]
    else lengths + Repeat(if t.code == 32 then LastLength(lengths) else 0, RunLength(t))
  }

  /** The length of the previous symbol, 0 before the first. */
  function LastLength(lengths: seq<int>): int
  {
    if |lengths| > 0 then lengths[|lengths| - 1] else 0
  }

  lemma LastLengthAppend(lengths: seq<int>, x: int, n: nat)
    ensures LastLength(lengths + Repeat(x, n)) == if n > 0 then x else LastLength(lengths)
  {
    if n == 0 {
      assert lengths + Repeat(x, n) == lengths;
    }
  }

  /**
   * The lengths as `symbolIDCodeLengths` computes them: code 32 copies
   * `previousCodeLength`, the last length given by a code below 32, which a
   * run of zeros does not update.
   */
  function LengthsAsWrittenFrom(tokens: seq<RunToken>, i: nat, amount: int, lengths: seq<int>,
                                previous: int): (r: Option<seq<int>>)
    ensures r.Some? ==> |r.value| >= amount && |r.value| >= |lengths| && r.value[..|lengths|] == lengths
    decreases |tokens| - i
  {
    if |lengths| >= amount then Some(lengths)
    else if i >= |tokens| then None
    else
      var (next, previous') := NextLengthsAsWritten(lengths, tokens[i], previous);
      var r := LengthsAsWrittenFrom(tokens, i + 1, amount, next, previous');
      assert r.Some? ==> r.value[..|lengths|] == next[..|lengths|];
      r
  }

  /** One code as written: a run of code 32 repeats `previous`, and only a code below 32 sets it. */
  function NextLengthsAsWritten(lengths: seq<int>, t: RunToken, previous: int): (r: (seq<int>, int))
    ensures t.code < 32 ==> r.1 == t.code
    ensures t.code >= 32 ==> r.1 == previous
    ensures |r.0| >= |lengths| && r.0[..|lengths|] == lengths
  {
    if t.code < 32 then (lengths + [t.code], t.code)
    else (lengths + Repeat(if t.code == 32 && |lengths| > 0 then previous else 0, RunLength(t)), previous)
  }

  lemma LengthsAsWrittenFromStep(tokens: seq<RunToken>, i: nat, amount: int, lengths: seq<int>, previous: int)
    requires |lengths| < amount && i < |tokens|
    ensures var (next, previous') := NextLengthsAsWritten(lengths, tokens[i], previous);
      LengthsAsWrittenFrom(tokens, i, amount, lengths, previous)
        == LengthsAsWrittenFrom(tokens, i + 1, amount, next, previous')
  {
  }

  /**
   * No code 32 comes straight after a run of zeros or a code above 32: the
   * written and the intended lengths then agree on every input.
   */
  ghost predicate NoStaleRepeat(tokens: seq<RunToken>)
  {
    forall k :: 0 < k < |tokens| && tokens[k].code == 32 ==> tokens[k - 1].code <= 32
  }

  /**
   * From a state where a code 32 at `i` would copy the last length, both
   * readings extend the lengths the same way to the end.
   */
  lemma {:induction false} LengthsAsWrittenAgreeFrom(tokens: seq<RunToken>, i: nat, amount: int,
                                                     lengths: seq<int>, previous: int)
    requires NoStaleRepeat(tokens)
    requires i < |tokens| && tokens[i].code == 32 ==> previous == LastLength(lengths)
    ensures LengthsAsWrittenFrom(tokens, i, amount, lengths, previous) == LengthsFrom(tokens, i, amount, lengths)
    decreases |tokens| - i
  {
    if |lengths| < amount && i < |tokens| {
      var t := tokens[i];
      var (next, previous') := NextLengthsAsWritten(lengths, t, previous);
      assert next == NextLengths(lengths, t);
      if t.code < 32 {
        LastLengthAppend(lengths, t.code, 1);
      } else if t.code == 32 {
        LastLengthAppend(lengths, LastLength(lengths), RunLength(t));
      } else if i + 1 < |tokens| {
        assert tokens[i + 1].code != 32;
      }
      LengthsAsWrittenAgreeFrom(tokens, i + 1, amount, next, previous');
    }
  }

  /** Without a code 32 after a zero run, the written lengths are the intended ones. */
  lemma LengthsAsWrittenAgree(tokens: seq<RunToken>, amount: int)
    requires NoStaleRepeat(tokens)
    ensures LengthsAsWrittenFrom(tokens, 0, amount, [], 0) == LengthsFrom(tokens, 0, amount, [])
  {
    LengthsAsWrittenAgreeFrom(tokens, 0, amount, [], 0);
  }

  /** The table lines for the non-zero lengths, each coding its symbol's index. */
  function NonZeroCodes(lengths: seq<int>): (r: seq<Code>)
    ensures forall k :: 0 <= k < |r| ==>
      0 <= r[k].value < |lengths| && r[k].prefixLength == lengths[r[k].value] > 0
    ensures forall k, l :: 0 <= k < l < |r| ==> r[k].value < r[l].value
    decreases |lengths|
  {
    if |lengths| == 0 then []
    else
      var init := lengths[..|lengths| - 1];
      var last := lengths[|lengths| - 1];
      NonZeroCodes(init) + (if last > 0 then [Code(last, |lengths| - 1)] else [])
  }

  /** Every symbol with a non-zero length has its line. */
  lemma {:induction false} NonZeroCodesComplete(lengths: seq<int>, i: nat)
    requires i < |lengths| && lengths[i] > 0
    ensures Code(lengths[i], i) in NonZeroCodes(lengths)
    decreases |lengths|
  {
    var init := lengths[..|lengths| - 1];
    if i < |lengths| - 1 {
      NonZeroCodesComplete(init, i);
    }
  }

  lemma NonZeroCodesAppend(lengths: seq<int>, x: int)
    ensures NonZeroCodes(lengths + [x]) == NonZeroCodes(lengths) + (if x > 0 then [Code(x, |lengths|)] else [])
  {
    assert (lengths + [x])[..|lengths|] == lengths;
  }

  /**
   * A run of zeros does not reset what code 32 copies: after a length of 5
   * and a run of three zeros, code 32 repeats 5 where the standard repeats
   * the 0 before it.
   */
  lemma StaleRunLengthAsWritten()
    ensures LengthsAsWrittenFrom([RunToken(5, 0), RunToken(33, 0), RunToken(32, 0)], 0, 7, [], 0)
      == Some([5, 0, 0, 0, 5, 5, 5])
    ensures LengthsFrom([RunToken(5, 0), RunToken(33, 0), RunToken(32, 0)], 0, 7, [])
      == Some([5, 0, 0, 0, 0, 0, 0])
  {
    var tokens := [RunToken(5, 0), RunToken(33, 0), RunToken(32, 0)];
    assert RunLength(tokens[1]) == 3 && RunLength(tokens[2]) == 3;
    var one, four := [5], [5, 0, 0, 0];
    assert one + Repeat(0, 3) == four;
    var stale, intended := [5, 0, 0, 0, 5, 5, 5], [5, 0, 0, 0, 0, 0, 0];
    assert four + Repeat(5, 3) == stale;
    assert four + Repeat(0, 3) == intended;
    assert LengthsAsWrittenFrom(tokens, 3, 7, stale, 5) == Some(stale);
    assert LengthsAsWrittenFrom(tokens, 2, 7, four, 5) == Some(stale);
    assert LengthsAsWrittenFrom(tokens, 1, 7, one, 5) == Some(stale);
    assert [] + [5] == one;
    assert LengthsAsWrittenFrom(tokens, 0, 7, [], 0) == Some(stale);
    assert NextLengths(four, tokens[2]) == intended;
    assert LengthsFrom(tokens, 3, 7, intended) == Some(intended);
    assert LengthsFrom(tokens, 2, 7, four) == Some(intended);
    assert NextLengths(one, tokens[1]) == four;
    assert LengthsFrom(tokens, 1, 7, one) == Some(intended);
    assert NextLengths([], tokens[0]) == one;
  }

  /**
   * The run-code loop's inner `for`: `runLength` symbols of length `len`,
   * a line added for each when `len` is positive.
   */
  method AppendRun(codes: seq<Code>, counter: int, len: int, runLength: nat, ghost lengths: seq<int>)
    returns (codes': seq<Code>, counter': int)
    requires codes == NonZeroCodes(lengths) && counter == |lengths|
    ensures codes' == NonZeroCodes(lengths + Repeat(len, runLength)) && counter' == counter + runLength
  {
    codes', counter' := codes, counter;
    ghost var done := lengths;
    var j := 0;
    while j < runLength
      invariant 0 <= j <= runLength && done == lengths + Repeat(len, j)
      invariant codes' == NonZeroCodes(done) && counter' == |done|
    {
      NonZeroCodesAppend(done, len);
      if len > 0 {
        codes' := codes' + [Code(len, counter')];
      }
      counter' := counter' + 1;
      assert lengths + Repeat(len, j + 1) == done + [len];
      done := done + [len];
      j := j + 1;
    }
  }

  /**
   * One pass of the `while (counter < amountOfSymbols)` loop of
   * `symbolIDCodeLengths` as written: a length below 32 or a run, with
   * `previousCodeLength` left alone after a run.
   */
  method NextCodesAsWritten(codes: seq<Code>, counter: int, previousCodeLength: int, t: RunToken,
                            ghost lengths: seq<int>)
    returns (codes': seq<Code>, counter': int, previousCodeLength': int)
    requires codes == NonZeroCodes(lengths) && counter == |lengths|
    ensures var (next, previous') := NextLengthsAsWritten(lengths, t, previousCodeLength);
      codes' == NonZeroCodes(next) && counter' == |next| && previousCodeLength' == previous'
  {
    if t.code < 32 {
      NonZeroCodesAppend(lengths, t.code);
      codes' := codes;
      if t.code > 0 {
        codes' := codes + [Code(t.code, counter)];
      }
      previousCodeLength' := t.code;
      counter' := counter + 1;
    } else {
      var runLength := RunLength(t);
      var currCodeLength := 0;
      if t.code == 32 && counter > 0 {
        currCodeLength := previousCodeLength;
      }
      codes', counter' := AppendRun(codes, counter, currCodeLength, runLength, lengths);
      previousCodeLength' := previousCodeLength;
    }
  }

  /** The same pass with `previousCodeLength` following the runs too, as section 7.4.3.1.7 reads. */
  method NextCodes(codes: seq<Code>, counter: int, previousCodeLength: int, t: RunToken, ghost lengths: seq<int>)
    returns (codes': seq<Code>, counter': int, previousCodeLength': int)
    requires codes == NonZeroCodes(lengths) && counter == |lengths| && previousCodeLength == LastLength(lengths)
    ensures codes' == NonZeroCodes(NextLengths(lengths, t)) && counter' == |NextLengths(lengths, t)|
    ensures previousCodeLength' == LastLength(NextLengths(lengths, t))
  {
    if t.code < 32 {
      NonZeroCodesAppend(lengths, t.code);
      LastLengthAppend(lengths, t.code, 1);
      assert Repeat(t.code, 1) == [t.code];
      codes' := codes;
      if t.code > 0 {
        codes' := codes + [Code(t.code, counter)];
      }
      previousCodeLength' := t.code;
      counter' := counter + 1;
    } else {
      var runLength := RunLength(t);
      var currCodeLength := 0;
      if t.code == 32 && counter > 0 {
        currCodeLength := previousCodeLength;
      }
      codes', counter' := AppendRun(codes, counter, currCodeLength, runLength, lengths);
      LastLengthAppend(lengths, currCodeLength, runLength);
      previousCodeLength' := previousCodeLength;
      if runLength > 0 {
        previousCodeLength' := currCodeLength;
      }
    }
  }

  /** The symbol ID table the run codes give as written, or the end of the stream when they run out. */
  function SymbolIdCodesAsWritten(tokens: seq<RunToken>, amountOfSymbols: int): (r: Result<seq<Code>>)
  {
    match LengthsAsWrittenFrom(tokens, 0, amountOfSymbols, [], 0)
    case None => Fail(EndOfStream)
    case Some(lengths) => Ok(NonZeroCodes(lengths))
  }

  /**
   * `symbolIDCodeLengths` after reading the run-code table, as written:
   * `tokens` are the run codes the table decodes, with the value of the
   * extra bits each run code reads.
   */
  method SymbolIdCodeLengthsAsWritten(tokens: seq<RunToken>, amountOfSymbols: int) returns (r: Result<seq<Code>>)
    ensures r == SymbolIdCodesAsWritten(tokens, amountOfSymbols)
  {
    var previousCodeLength := 0;
    var counter := 0;
    var codes: seq<Code> := [];
    ghost var lengths: seq<int> := [];
    var i := 0;
    while counter < amountOfSymbols
      invariant 0 <= i <= |tokens| && codes == NonZeroCodes(lengths) && counter == |lengths|
      invariant LengthsAsWrittenFrom(tokens, i, amountOfSymbols, lengths, previousCodeLength)
        == LengthsAsWrittenFrom(tokens, 0, amountOfSymbols, [], 0)
      decreases |tokens| - i
    {
      if i >= |tokens| {
        return Fail(EndOfStream);
      }
      LengthsAsWrittenFromStep(tokens, i, amountOfSymbols, lengths, previousCodeLength);
      ghost var next := NextLengthsAsWritten(lengths, tokens[i], previousCodeLength).0;
      codes, counter, previousCodeLength := NextCodesAsWritten(codes, counter, previousCodeLength, tokens[i], lengths);
      lengths := next;
      i := i + 1;
    }
    r := Ok(codes);
  }

  /**
   * `symbolIDCodeLengths` with code 32 copying the previous symbol's
   * length, as section 7.4.3.1.7 reads.
   */
  method SymbolIdCodeLengths(tokens: seq<RunToken>, amountOfSymbols: int) returns (r: Result<seq<Code>>)
    ensures match LengthsFrom(tokens, 0, amountOfSymbols, [])
      case None => r == Fail(EndOfStream)
      case Some(lengths) => r == Ok(NonZeroCodes(lengths))
  {
    var previousCodeLength := 0;
    var counter := 0;
    var codes: seq<Code> := [];
    ghost var lengths: seq<int> := [];
    var i := 0;
    while counter < amountOfSymbols
      invariant 0 <= i <= |tokens| && codes == NonZeroCodes(lengths) && counter == |lengths|
      invariant previousCodeLength == LastLength(lengths)
      invariant LengthsFrom(tokens, i, amountOfSymbols, lengths) == LengthsFrom(tokens, 0, amountOfSymbols, [])
      decreases |tokens| - i
    {
      if i >= |tokens| {
        return Fail(EndOfStream);
      }
      LengthsFromStep(tokens, i, amountOfSymbols, lengths);
      codes, counter, previousCodeLength := NextCodes(codes, counter, previousCodeLength, tokens[i], lengths);
      lengths := NextLengths(lengths, tokens[i]);
      i := i + 1;
    }
    r := Ok(codes);
  }

  // ---------------------------------------------------------------------------
  // Refinement geometry (section 6.4.11)

  /**
   * What `decodeIb` hands the generic refinement region decoder: the
   * reference symbol, the refined size and GRREFERENCEDX/DY.
   */
  datatype RefinementRequest = RefinementRequest(reference: nat, width: int, height: int, dx: int, dy: int)

  /**
   * `(int) (wo + rdw)`, `(int) (ho + rdh)`, `(int) ((rdw >> 1) + rdx)` and
   * `(int) ((rdh >> 1) + rdy)`; `>> 1` on a `long` rounds towards minus
   * infinity, as Dafny's `/ 2` does.
   */
  function RefinementRequestFor(reference: nat, wo: int, ho: int, rdw: int, rdh: int, rdx: int, rdy: int)
    : RefinementRequest
  {
    RefinementRequest(reference, Wrap32(wo + rdw), Wrap32(ho + rdh), Wrap32(rdw / 2 + rdx), Wrap32(rdh / 2 + rdy))
  }

  /**
   * The refined size is the reference symbol's plus RDW and RDH (as an
   * `int`), and, when it fits in an `int`, GRREFERENCEDX less RDX is half
   * of RDW rounded down (GRREFERENCEDY likewise).
   */
  lemma RefinementRequestSizes(reference: nat, wo: int, ho: int, rdw: int, rdh: int, rdx: int, rdy: int)
    ensures var r := RefinementRequestFor(reference, wo, ho, rdw, rdh, rdx, rdy);
      && r.reference == reference
      && r.width == Wrap32(wo + rdw) && r.height == Wrap32(ho + rdh)
      && (IsInt32(rdw / 2 + rdx) ==> r.dx - rdx <= rdw - (r.dx - rdx) <= r.dx - rdx + 1)
      && (IsInt32(rdh / 2 + rdy) ==> r.dy - rdy <= rdh - (r.dy - rdy) <= r.dy - rdy + 1)
  {
  }

  /**
   * The reference offset is half the width change rounded down: the only
   * `d` with `2 * d <= rdw < 2 * d + 2`.
   */
  lemma RefinementOffsetIsHalf(reference: nat, wo: int, ho: int, rdw: int, rdh: int, rdx: int, rdy: int, d: int)
    requires IsInt32(rdw / 2 + rdx) && 2 * d <= rdw < 2 * d + 2
    ensures RefinementRequestFor(reference, wo, ho, rdw, rdh, rdx, rdy).dx == rdx + d
  {
    RefinementRequestSizes(reference, wo, ho, rdw, rdh, rdx, rdy);
  }

  // ---------------------------------------------------------------------------
  // Placing one symbol instance (section 6.4.5, steps 3 c) vi) to x))

  /** Where `blit` puts a symbol: the origin it blits at and `currentS` afterwards. */
  datatype Spot = Spot(x: int, y: int, endS: int)

  /**
   * `blit(ib, t)`: `currentS` moves to the symbol's far edge, before the
   * blit for the bottom- or right-anchored corners and after it for the
   * others; the origin is `(s, t)`, swapped when transposed, less the
   * symbol's extent on the sides the reference corner names; `(int)`
   * truncates the origin to 32 bits.
   */
  function Place(currentS: int, t: int, w: int, h: int, transposed: nat, corner: nat): Spot
  {
    var before := if transposed == 0 && (corner == 2 || corner == 3) then currentS + (w - 1)
                  else if transposed == 1 && (corner == 0 || corner == 2) then currentS + (h - 1)
                  else currentS;
    var s0 := if transposed == 1 then t else before;
    var t0 := if transposed == 1 then before else t;
    var t1 := if corner == 0 || corner == 2 then t0 - (h - 1) else t0;
    var s1 := if corner == 2 || corner == 3 then s0 - (w - 1) else s0;
    var after := if transposed == 0 && (corner == 0 || corner == 1) then before + (w - 1)
                 else if transposed == 1 && (corner == 1 || corner == 3) then before + (h - 1)
                 else before;
    Spot(Wrap32(s1), Wrap32(t1), after)
  }

  /**
   * For each orientation: the origin is `currentS`, truncated, along S,
   * and T less the symbol's extent along T for the bottom corners (the
   * right ones when transposed); `currentS` ends on the symbol's far edge
   * along S, its width (or, transposed, its height) less one further on.
   */
  lemma PlaceCorners(currentS: int, t: int, w: int, h: int, transposed: nat, corner: nat)
    ensures var r := Place(currentS, t, w, h, transposed, corner);
      && (transposed == 0 && corner < 4 ==>
            && r.x == Wrap32(currentS) && r.y == Wrap32(if corner == 0 || corner == 2 then t - (h - 1) else t)
            && r.endS == currentS + (w - 1))
      && (transposed == 1 && corner < 4 ==>
            && r.y == Wrap32(currentS) && r.x == Wrap32(if corner == 2 || corner == 3 then t - (w - 1) else t)
            && r.endS == currentS + (h - 1))
  {
  }

  // ---------------------------------------------------------------------------
  // Decoding the symbol instances (section 6.4.5)

  /** The region's decoding parameters, as the parsed header and the region bitmap give them. */
  datatype TextParams = TextParams(
    huffman: bool, refinement: bool, sbStrips: int, sbdsOffset: int, transposed: nat, corner: nat,
    amount: int, op: CombinationOperator, dw: int, dh: int, ds: int)

  /**
   * What the collaborators supply: the integers the entropy decoders
   * return, in the order they are asked for; the symbols; and the bitmaps
   * the refinement decoder returns, in order.
   */
  datatype Sources = Sources(values: seq<int>, symbols: seq<Image>, refinements: seq<Image>)

  /**
   * The loop's local state: how many decoded integers and refined bitmaps
   * have been used, STRIPT, FIRSTS and the instance counter.
   */
  datatype Walk = Walk(i: nat, k: nat, stripT: int, firstS: int, count: int)

  /** The out-of-band value the entropy decoders return, `Long.MAX_VALUE`. */
  const OOB: int := 0x7fff_ffff_ffff_ffff

  /** The bitmap `decodeIb` yields, which symbol it stands for, the refinement asked for, and the cursors after. */
  datatype Ib = Ib(symbol: nat, request: Option<RefinementRequest>, image: Image, i: nat, k: nat)

  /**
   * `decodeIb(r, id)`: symbol `(int) id` itself when R is 0; otherwise
   * RDW, RDH, RDX, RDY (and, with Huffman coding, the unused size of the
   * refinement data) and then the refined bitmap.
   */
  function IbAt(p: TextParams, src: Sources, ri: int, id: int, i: nat, k: nat): (r: Result<Ib>)
    requires i <= |src.values| && k <= |src.refinements|
    ensures r.Ok? ==> i <= r.value.i <= |src.values| && k <= r.value.k <= |src.refinements|
    ensures r.Ok? ==> r.value.symbol == Wrap32(id) && r.value.symbol < |src.symbols|
    ensures r.Ok? && ri == 0 ==> r.value == Ib(Wrap32(id), None, src.symbols[Wrap32(id)], i, k)
    ensures r.Ok? && ri != 0 ==>
      && k < |src.refinements| && r.value.image == src.refinements[k] && r.value.k == k + 1
      && r.value.request.Some? && r.value.request.value.reference == Wrap32(id)
    ensures r.Fail? ==> r.error == EndOfStream || (r.error == IndexOutOfBounds && !(0 <= Wrap32(id) < |src.symbols|))
  {
    var index := Wrap32(id);
    if ri == 0 then
      if 0 <= index < |src.symbols| then Ok(Ib(index, None, src.symbols[index], i, k)) else Fail(IndexOutOfBounds)
    else
      var n := if p.huffman then 5 else 4;
      if i + n > |src.values| then Fail(EndOfStream)
      else if !(0 <= index < |src.symbols|) then Fail(IndexOutOfBounds)
      else if k >= |src.refinements| then Fail(EndOfStream)
      else
        var ibo := src.symbols[index];
        var v := src.values;
        var request := RefinementRequestFor(index, ibo.width, ibo.height, v[i], v[i + 1], v[i + 2], v[i + 3]);
        Ok(Ib(index, Some(request), src.refinements[k], i + n, k + 1))
  }

  /** One instance as read: T within the strip (CURT) and what `decodeIb` yields. */
  datatype InstanceRead = InstanceRead(currentT: int, ib: Ib)

  /**
   * Steps 3 c) iii) to v): `decodeCurrentT` (0 when there is one strip),
   * `decodeID`, `decodeRI` (0 without refinement), then `decodeIb`.
   */
  function InstanceAt(p: TextParams, src: Sources, i: nat, k: nat): (r: Result<InstanceRead>)
    requires i <= |src.values| && k <= |src.refinements|
    ensures r.Ok? ==> i < r.value.ib.i <= |src.values| && k <= r.value.ib.k <= |src.refinements|
    ensures r.Ok? && p.sbStrips == 1 ==> r.value.currentT == 0
  {
    var v := src.values;
    if p.sbStrips != 1 && i >= |v| then Fail(EndOfStream)
    else
      var currentT := if p.sbStrips != 1 then v[i] else 0;
      var i1 := if p.sbStrips != 1 then i + 1 else i;
      if i1 >= |v| || (p.refinement && i1 + 1 >= |v|) then Fail(EndOfStream)
      else
        var ri := if p.refinement then v[i1 + 1] else 0;
        var i2 := if p.refinement then i1 + 2 else i1 + 1;
        match IbAt(p, src, ri, v[i1], i2, k)
        case Fail(e) => Fail(e)
        case Ok(ib) => Ok(InstanceRead(currentT, ib))
  }

  /** What one placed instance leaves on record, with the bitmap `blit` draws. */
  datatype Placement = Placement(
    first: bool, deltaS: int, s: int, t: int, stripT: int, image: Image, symbol: nat,
    request: Option<RefinementRequest>, spot: Spot)

  /** The state after an instance is read: the walk, `currentS` and the record so far. */
  datatype Step = Step(w: Walk, currentS: int, placements: seq<Placement>)

  /**
   * One instance at S coordinate `s`: read it, work out where `blit` puts
   * it at T = STRIPT + CURT, count it.  `deltaS` is the decoded value that
   * moved S here.
   */
  function PlaceInstance(p: TextParams, src: Sources, w: Walk, s: int, acc: seq<Placement>,
                         first: bool, deltaS: int): (r: Result<Step>)
    requires w.i <= |src.values| && w.k <= |src.refinements|
    ensures r.Ok? ==>
      && w.i < r.value.w.i <= |src.values| && w.k <= r.value.w.k <= |src.refinements|
      && r.value.w == w.(i := r.value.w.i, k := r.value.w.k, count := w.count + 1)
      && |r.value.placements| == |acc| + 1 && r.value.placements[..|acc|] == acc
      && var pl := r.value.placements[|acc|];
         && pl.first == first && pl.deltaS == deltaS && pl.s == s && pl.stripT == w.stripT
         && (p.sbStrips == 1 ==> pl.t == w.stripT)
         && pl.spot == Place(s, pl.t, pl.image.width, pl.image.height, p.transposed, p.corner)
         && r.value.currentS == pl.spot.endS
  {
    match InstanceAt(p, src, w.i, w.k)
    case Fail(e) => Fail(e)
    case Ok(read) =>
      var image := read.ib.image;
      var t := w.stripT + read.currentT;
      var spot := Place(s, t, image.width, image.height, p.transposed, p.corner);
      var pl := Placement(first, deltaS, s, t, w.stripT, image, read.ib.symbol, read.ib.request, spot);
      assert (acc + [pl])[..|acc|] == acc;
      Ok(Step(w.(i := read.ib.i, k := read.ib.k, count := w.count + 1), spot.endS, acc + [pl]))
  }

  /** Where the loop stands: at the top of a strip, before its first instance, or within it. */
  datatype Phase = StripStart | FirstInStrip | NextInStrip

  /** One step of the loop: it ends the loop, fails, or goes on from a new state. */
  datatype Next =
    | Done
    | Failed(error: Error)
    | Continue(phase: Phase, w: Walk, currentS: int, placements: seq<Placement>)

  /**
   * Steps 3 a) to d) of section 6.4.5 as `decodeSymbolInstances` runs them,
   * one decoded value at a time: while fewer than SBNUMINSTANCES instances
   * are decoded, a strip adds DT * SBSTRIPS to STRIPT and sets `currentS`
   * to 0; its first instance adds DFS to FIRSTS and starts there; each
   * further instance moves S by IDS + SBDSOFFSET, until IDS is OOB or the
   * count is reached.
   */
  function Transition(p: TextParams, src: Sources, phase: Phase, w: Walk, currentS: int,
                      acc: seq<Placement>): (r: Next)
    requires w.i <= |src.values| && w.k <= |src.refinements|
    ensures r.Continue? ==>
      && w.i < r.w.i <= |src.values| && r.w.k <= |src.refinements|
      && |acc| <= |r.placements| && r.placements[..|acc|] == acc
  {
    var v := src.values;
    match phase
    case StripStart =>
      if w.count >= p.amount then Done
      else if w.i >= |v| then Failed(EndOfStream)
      else Continue(FirstInStrip, w.(i := w.i + 1, stripT := w.stripT + v[w.i] * p.sbStrips), 0, acc)
    case FirstInStrip =>
      if w.i >= |v| then Failed(EndOfStream)
      else
        var firstS := w.firstS + v[w.i];
        (match PlaceInstance(p, src, w.(i := w.i + 1, firstS := firstS), firstS, acc, true, v[w.i])
         case Fail(e) => Failed(e)
         case Ok(st) => Continue(NextInStrip, st.w, st.currentS, st.placements))
    case NextInStrip =>
      if w.i >= |v| then Failed(EndOfStream)
      else if v[w.i] == OOB || w.count >= p.amount then Continue(StripStart, w.(i := w.i + 1), currentS, acc)
      else
        var s := currentS + (v[w.i] + p.sbdsOffset);
        match PlaceInstance(p, src, w.(i := w.i + 1), s, acc, false, v[w.i])
        case Fail(e) => Failed(e)
        case Ok(st) => Continue(NextInStrip, st.w, st.currentS, st.placements)
  }

  /** How the reading ends: the instances read, the final state, and the error that stopped it, if any. */
  datatype Ending = Ending(placements: seq<Placement>, final: Walk, currentS: int, failure: Option<Error>)

  /** The loop's reading: steps until one ends it. */
  function Run(p: TextParams, src: Sources, phase: Phase, w: Walk, currentS: int, acc: seq<Placement>): Ending
    requires w.i <= |src.values| && w.k <= |src.refinements|
    decreases |src.values| - w.i
  {
    match Transition(p, src, phase, w, currentS, acc)
    case Done => Ending(acc, w, currentS, None)
    case Failed(e) => Ending(acc, w, currentS, Some(e))
    case Continue(phase', w', currentS', acc') => Run(p, src, phase', w', currentS', acc')
  }

  /**
   * The instances `blit` draws, in order, onto the region's bytes with the
   * region's combination operator; `None` once one falls outside the buffers.
   */
  function Paint(p: TextParams, d: seq<bv8>, placements: seq<Placement>): Option<seq<bv8>>
    decreases |placements|
  {
    if |placements| == 0 then Some(d)
    else
      var pl := placements[|placements| - 1];
      match Paint(p, d, placements[..|placements| - 1])
      case None => None
      case Some(d') => BlitImage(d', p.dw, p.dh, p.ds, pl.image, pl.spot.x, pl.spot.y, p.op)
  }

  /** The result of the whole loop: the region's bytes, the record of placements, the final state. */
  datatype Decoded = Decoded(bytes: seq<bv8>, placements: seq<Placement>, final: Walk, currentS: int)

  /**
   * `decodeStripT` (the first value, times -SBSTRIPS), then the loop; each
   * instance is drawn before the next one is read, so a `blit` outside the
   * buffers is the error when one happens.
   */
  function Decode(p: TextParams, src: Sources, currentS: int, d: seq<bv8>): Result<Decoded>
  {
    if |src.values| == 0 then Fail(EndOfStream)
    else
      var e := Run(p, src, StripStart, Walk(1, 0, src.values[0] * -p.sbStrips, 0, 0), currentS, []);
      match Paint(p, d, e.placements)
      case None => Fail(IndexOutOfBounds)
      case Some(bytes) =>
        if e.failure.Some? then Fail(e.failure.value) else Ok(Decoded(bytes, e.placements, e.final, e.currentS))
  }

  // ---------------------------------------------------------------------------
  // The loop one step at a time

  /** `Run` takes the step `Transition` gives. */
  lemma RunUnfold(p: TextParams, src: Sources, phase: Phase, w: Walk, currentS: int, acc: seq<Placement>)
    requires w.i <= |src.values| && w.k <= |src.refinements|
    ensures var n := Transition(p, src, phase, w, currentS, acc);
      && (n.Done? ==> Run(p, src, phase, w, currentS, acc) == Ending(acc, w, currentS, None))
      && (n.Failed? ==> Run(p, src, phase, w, currentS, acc) == Ending(acc, w, currentS, Some(n.error)))
      && (n.Continue? ==> Run(p, src, phase, w, currentS, acc) == Run(p, src, n.phase, n.w, n.currentS, n.placements))
  {
  }

  /** The loop stops at the top of a strip once SBNUMINSTANCES instances are placed. */
  lemma RunDone(p: TextParams, src: Sources, w: Walk, currentS: int, acc: seq<Placement>)
    requires w.i <= |src.values| && w.k <= |src.refinements| && w.count >= p.amount
    ensures Run(p, src, StripStart, w, currentS, acc) == Ending(acc, w, currentS, None)
  {
    RunUnfold(p, src, StripStart, w, currentS, acc);
  }

  /** With every decoded value used, the next one the loop asks for is missing. */
  lemma RunAtEnd(p: TextParams, src: Sources, phase: Phase, w: Walk, currentS: int, acc: seq<Placement>)
    requires w.i == |src.values| && w.k <= |src.refinements|
    requires phase == StripStart ==> w.count < p.amount
    ensures Run(p, src, phase, w, currentS, acc) == Ending(acc, w, currentS, Some(EndOfStream))
  {
    RunUnfold(p, src, phase, w, currentS, acc);
  }

  /** At the top of a strip: done once SBNUMINSTANCES instances are in, else DT moves STRIPT and `currentS` is 0. */
  lemma TransitionStart(p: TextParams, src: Sources, w: Walk, currentS: int, acc: seq<Placement>, w0: Walk)
    requires w.i < |src.values| && w.k <= |src.refinements|
    requires w0 == w.(i := w.i + 1, stripT := w.stripT + src.values[w.i] * p.sbStrips)
    ensures Transition(p, src, StripStart, w, currentS, acc)
      == if w.count >= p.amount then Done else Continue(FirstInStrip, w0, 0, acc)
  {
  }

  /** A strip's first instance sits at FIRSTS + DFS. */
  lemma TransitionFirst(p: TextParams, src: Sources, w: Walk, currentS: int, acc: seq<Placement>, w0: Walk, s: int)
    requires w.i < |src.values| && w.k <= |src.refinements|
    requires s == w.firstS + src.values[w.i] && w0 == w.(i := w.i + 1, firstS := s)
    ensures var r := PlaceInstance(p, src, w0, s, acc, true, src.values[w.i]);
      Transition(p, src, FirstInStrip, w, currentS, acc)
      == if r.Fail? then Failed(r.error) else Continue(NextInStrip, r.value.w, r.value.currentS, r.value.placements)
  {
  }

  /** Within a strip, unless IDS is OOB or the count is reached, the next instance sits IDS + SBDSOFFSET past `currentS`. */
  lemma TransitionNext(p: TextParams, src: Sources, w: Walk, currentS: int, acc: seq<Placement>, w0: Walk, s: int)
    requires w.i < |src.values| && w.k <= |src.refinements|
    requires s == currentS + (src.values[w.i] + p.sbdsOffset) && w0 == w.(i := w.i + 1)
    ensures var v := src.values[w.i];
      var r := PlaceInstance(p, src, w0, s, acc, false, v);
      Transition(p, src, NextInStrip, w, currentS, acc)
      == if v == OOB || w.count >= p.amount then Continue(StripStart, w0, currentS, acc)
         else if r.Fail? then Failed(r.error)
         else Continue(NextInStrip, r.value.w, r.value.currentS, r.value.placements)
  {
  }

  /** The reading only ever adds to the record. */
  lemma {:induction false} RunExtends(p: TextParams, src: Sources, phase: Phase, w: Walk, currentS: int,
                                      acc: seq<Placement>)
    requires w.i <= |src.values| && w.k <= |src.refinements|
    ensures var e := Run(p, src, phase, w, currentS, acc);
      |acc| <= |e.placements| && e.placements[..|acc|] == acc
    decreases |src.values| - w.i
  {
    RunUnfold(p, src, phase, w, currentS, acc);
    var n := Transition(p, src, phase, w, currentS, acc);
    if n.Continue? {
      RunExtends(p, src, n.phase, n.w, n.currentS, n.placements);
      var e := Run(p, src, n.phase, n.w, n.currentS, n.placements);
      assert e.placements[..|acc|] == e.placements[..|n.placements|][..|acc|];
    }
  }

  /** Drawing one more instance: the bytes so far, then its `blit`. */
  lemma PaintAppend(p: TextParams, d: seq<bv8>, acc: seq<Placement>, pl: Placement)
    ensures Paint(p, d, acc + [pl]) == match Paint(p, d, acc)
      case None => None
      case Some(d') => BlitImage(d', p.dw, p.dh, p.ds, pl.image, pl.spot.x, pl.spot.y, p.op)
  {
    assert (acc + [pl])[..|acc|] == acc;
  }

  /** Once a `blit` falls outside the buffers, no later instance is drawn. */
  lemma {:induction false} PaintStops(p: TextParams, d: seq<bv8>, placements: seq<Placement>, n: nat)
    requires n <= |placements| && Paint(p, d, placements[..n]).None?
    ensures Paint(p, d, placements).None?
    decreases |placements| - n
  {
    if n < |placements| {
      assert placements[..n + 1][..n] == placements[..n];
      PaintStops(p, d, placements, n + 1);
    } else {
      assert placements[..n] == placements;
    }
  }

  /** `e` is the error `Decode` reports for a reading that ends as `target`, on bytes `d0`. */
  predicate FailsAs(p: TextParams, d0: seq<bv8>, target: Ending, e: Error)
  {
    match Paint(p, d0, target.placements)
    case None => e == IndexOutOfBounds
    case Some(_) => target.failure == Some(e)
  }

  /** One instance read and drawn: the state after it and the region's bytes. */
  datatype Drawn = Drawn(step: Step, bytes: seq<bv8>)

  /**
   * Steps 3 c) iii) to x) of section 6.4.5 on the bytes `d`: the instance
   * `PlaceInstance` reads at `s`, drawn where it places it; `blit` failing
   * outside the buffers is the error `IndexOutOfBounds`.
   */
  function DrawInstance(p: TextParams, src: Sources, w: Walk, s: int, acc: seq<Placement>,
                        first: bool, deltaS: int, d: seq<bv8>): (r: Result<Drawn>)
    requires w.i <= |src.values| && w.k <= |src.refinements|
    ensures r.Ok? ==> PlaceInstance(p, src, w, s, acc, first, deltaS) == Ok(r.value.step)
    ensures r.Ok? ==> |r.value.bytes| == |d|
  {
    match PlaceInstance(p, src, w, s, acc, first, deltaS)
    case Fail(e) => Fail(e)
    case Ok(st) =>
      var pl := st.placements[|acc|];
      match BlitImage(d, p.dw, p.dh, p.ds, pl.image, pl.spot.x, pl.spot.y, p.op)
      case None => Fail(IndexOutOfBounds)
      case Some(d') => Ok(Drawn(st, d'))
  }

  /**
   * The instance `InstanceAt` reads, placed at `s` and T = STRIPT + CURT,
   * is the `DrawInstance` step when its blit fits.
   */
  lemma DrawnAs(p: TextParams, src: Sources, w: Walk, s: int, acc: seq<Placement>, first: bool, deltaS: int,
                d: seq<bv8>, read: InstanceRead, t: int, spot: Spot, pl: Placement, w': Walk)
    requires w.i <= |src.values| && w.k <= |src.refinements|
    requires InstanceAt(p, src, w.i, w.k) == Ok(read) && t == w.stripT + read.currentT
    requires spot == Place(s, t, read.ib.image.width, read.ib.image.height, p.transposed, p.corner)
    requires pl == Placement(first, deltaS, s, t, w.stripT, read.ib.image, read.ib.symbol, read.ib.request, spot)
    requires w' == w.(i := read.ib.i, k := read.ib.k, count := w.count + 1)
    ensures DrawInstance(p, src, w, s, acc, first, deltaS, d)
      == match BlitImage(d, p.dw, p.dh, p.ds, read.ib.image, spot.x, spot.y, p.op)
         case None => Fail(IndexOutOfBounds)
         case Some(d') => Ok(Drawn(Step(w', spot.endS, acc + [pl]), d'))
  {
    assert (acc + [pl])[|acc|] == pl;
  }

  /**
   * Drawing one instance, in step with the loop: when the reading fails,
   * or its `blit` does, the loop's result fails the same way; otherwise
   * the loop goes on within the strip with the record and the bytes one
   * instance further.
   */
  lemma PlacedStep(p: TextParams, src: Sources, d0: seq<bv8>, target: Ending, phase: Phase, w: Walk, currentS: int,
                   acc: seq<Placement>, d: seq<bv8>, w0: Walk, s: int, first: bool, deltaS: int)
    requires w.i <= |src.values| && w.k <= |src.refinements| && w0.i <= |src.values| && w0.k <= |src.refinements|
    requires Run(p, src, phase, w, currentS, acc) == target && Paint(p, d0, acc) == Some(d)
    requires var r := PlaceInstance(p, src, w0, s, acc, first, deltaS);
      Transition(p, src, phase, w, currentS, acc)
      == if r.Fail? then Failed(r.error) else Continue(NextInStrip, r.value.w, r.value.currentS, r.value.placements)
    ensures var r := DrawInstance(p, src, w0, s, acc, first, deltaS, d);
      && (r.Fail? ==> FailsAs(p, d0, target, r.error))
      && (r.Ok? ==> Run(p, src, NextInStrip, r.value.step.w, r.value.step.currentS, r.value.step.placements) == target
                    && Paint(p, d0, r.value.step.placements) == Some(r.value.bytes))
  {
    RunUnfold(p, src, phase, w, currentS, acc);
    var r := PlaceInstance(p, src, w0, s, acc, first, deltaS);
    if r.Ok? {
      var st := r.value;
      var pl := st.placements[|acc|];
      assert st.placements == acc + [pl];
      PaintAppend(p, d0, acc, pl);
      RunExtends(p, src, NextInStrip, st.w, st.currentS, st.placements);
      if Paint(p, d0, st.placements).None? {
        PaintStops(p, d0, target.placements, |st.placements|);
      }
    }
  }

  /** The first instance of a strip, at FIRSTS + DFS, drawn in step with the loop. */
  lemma FirstPlaced(p: TextParams, src: Sources, d0: seq<bv8>, target: Ending, w: Walk, currentS: int,
                    acc: seq<Placement>, d: seq<bv8>, w0: Walk, s: int)
    requires w.i < |src.values| && w.k <= |src.refinements|
    requires s == w.firstS + src.values[w.i] && w0 == w.(i := w.i + 1, firstS := s)
    requires Run(p, src, FirstInStrip, w, currentS, acc) == target && Paint(p, d0, acc) == Some(d)
    ensures var r := DrawInstance(p, src, w0, s, acc, true, src.values[w.i], d);
      && (r.Fail? ==> FailsAs(p, d0, target, r.error))
      && (r.Ok? ==> Run(p, src, NextInStrip, r.value.step.w, r.value.step.currentS, r.value.step.placements) == target
                    && Paint(p, d0, r.value.step.placements) == Some(r.value.bytes))
  {
    TransitionFirst(p, src, w, currentS, acc, w0, s);
    PlacedStep(p, src, d0, target, FirstInStrip, w, currentS, acc, d, w0, s, true, src.values[w.i]);
  }

  /** A further instance of a strip, IDS + SBDSOFFSET on, drawn in step with the loop. */
  lemma NextPlaced(p: TextParams, src: Sources, d0: seq<bv8>, target: Ending, w: Walk, currentS: int,
                   acc: seq<Placement>, d: seq<bv8>, w0: Walk, s: int)
    requires w.i < |src.values| && w.k <= |src.refinements|
    requires s == currentS + (src.values[w.i] + p.sbdsOffset) && w0 == w.(i := w.i + 1)
    requires src.values[w.i] != OOB && w.count < p.amount
    requires Run(p, src, NextInStrip, w, currentS, acc) == target && Paint(p, d0, acc) == Some(d)
    ensures var r := DrawInstance(p, src, w0, s, acc, false, src.values[w.i], d);
      && (r.Fail? ==> FailsAs(p, d0, target, r.error))
      && (r.Ok? ==> Run(p, src, NextInStrip, r.value.step.w, r.value.step.currentS, r.value.step.placements) == target
                    && Paint(p, d0, r.value.step.placements) == Some(r.value.bytes))
  {
    TransitionNext(p, src, w, currentS, acc, w0, s);
    PlacedStep(p, src, d0, target, NextInStrip, w, currentS, acc, d, w0, s, false, src.values[w.i]);
  }

  /** An OOB IDS, or the count reached, ends the strip. */
  lemma NextEnds(p: TextParams, src: Sources, w: Walk, currentS: int, acc: seq<Placement>, w0: Walk)
    requires w.i < |src.values| && w.k <= |src.refinements| && w0 == w.(i := w.i + 1)
    requires src.values[w.i] == OOB || w.count >= p.amount
    ensures Run(p, src, NextInStrip, w, currentS, acc) == Run(p, src, StripStart, w0, currentS, acc)
  {
    TransitionNext(p, src, w, currentS, acc, w0, currentS + (src.values[w.i] + p.sbdsOffset));
    RunUnfold(p, src, NextInStrip, w, currentS, acc);
  }

  /** A new strip: DT moves STRIPT, and its first instance comes next with `currentS` at 0. */
  lemma StartStep(p: TextParams, src: Sources, w: Walk, currentS: int, acc: seq<Placement>, w0: Walk)
    requires w.i < |src.values| && w.k <= |src.refinements| && w.count < p.amount
    requires w0 == w.(i := w.i + 1, stripT := w.stripT + src.values[w.i] * p.sbStrips)
    ensures Run(p, src, StripStart, w, currentS, acc) == Run(p, src, FirstInStrip, w0, 0, acc)
  {
    TransitionStart(p, src, w, currentS, acc, w0);
    RunUnfold(p, src, StripStart, w, currentS, acc);
  }

  /** `Decode` fails as the reading from its start does. */
  lemma DecodeFails(p: TextParams, src: Sources, currentS: int, d0: seq<bv8>, target: Ending, e: Error)
    requires |src.values| > 0
    requires target == Run(p, src, StripStart, Walk(1, 0, src.values[0] * -p.sbStrips, 0, 0), currentS, [])
    requires FailsAs(p, d0, target, e)
    ensures Decode(p, src, currentS, d0) == Fail(e)
  {
  }

  /** `Decode` succeeds when the reading from its start ends without error and every instance fits. */
  lemma DecodeSucceeds(p: TextParams, src: Sources, currentS: int, d0: seq<bv8>, target: Ending, d: seq<bv8>)
    requires |src.values| > 0
    requires target == Run(p, src, StripStart, Walk(1, 0, src.values[0] * -p.sbStrips, 0, 0), currentS, [])
    requires target.failure.None? && Paint(p, d0, target.placements) == Some(d)
    ensures Decode(p, src, currentS, d0) == Ok(Decoded(d, target.placements, target.final, target.currentS))
  {
  }

  // ---------------------------------------------------------------------------
  // What the placement loop guarantees

  /** The S coordinate of the last first-in-strip instance among the first `n`, 0 before any. */
  function LastFirstS(acc: seq<Placement>, n: nat): int
    requires n <= |acc|
  {
    if n == 0 then 0 else if acc[n - 1].first then acc[n - 1].s else LastFirstS(acc, n - 1)
  }

  lemma {:induction false} LastFirstSPrefix(acc: seq<Placement>, x: Placement, n: nat)
    requires n <= |acc|
    ensures LastFirstS(acc + [x], n) == LastFirstS(acc, n)
    decreases n
  {
    if n > 0 {
      assert (acc + [x])[n - 1] == acc[n - 1];
      LastFirstSPrefix(acc, x, n - 1);
    }
  }

  function Max0(n: int): nat
  {
    if n < 0 then 0 else n
  }

  /** SBSTRIPS as the flags allow it. */
  predicate StripsAllowed(n: int)
  {
    n == 1 || n == 2 || n == 4 || n == 8
  }

  /** Adding a multiple of the strip count keeps STRIPT a multiple of it. */
  lemma StripMultiple(a: int, v: int, n: int)
    requires StripsAllowed(n) && a % n == 0
    ensures (a + v * n) % n == 0 && (v * -n) % n == 0
  {
    if n == 1 {
    } else if n == 2 {
      assert a + v * 2 == 2 * (a / 2 + v);
    } else if n == 4 {
      assert a + v * 4 == 4 * (a / 4 + v);
    } else {
      assert a + v * 8 == 8 * (a / 8 + v);
    }
  }

  /**
   * The record the loop keeps: each instance's strip T is a multiple of
   * SBSTRIPS and, with one strip, is its T; the first instance of a strip
   * sits at the previous strip's FIRSTS plus its DFS; every other instance
   * sits IDS + SBDSOFFSET past where the one before it ended, in the same
   * strip; and each was placed as `Place` says.
   */
  predicate PlacementsOk(p: TextParams, acc: seq<Placement>)
  {
    forall j :: 0 <= j < |acc| ==>
      && (StripsAllowed(p.sbStrips) ==> acc[j].stripT % p.sbStrips == 0)
      && (p.sbStrips == 1 ==> acc[j].t == acc[j].stripT)
      && (acc[j].first ==> acc[j].s == LastFirstS(acc, j) + acc[j].deltaS)
      && (!acc[j].first ==>
            j > 0 && acc[j].s == acc[j - 1].spot.endS + acc[j].deltaS + p.sbdsOffset
            && acc[j].stripT == acc[j - 1].stripT)
      && acc[j].spot == Place(acc[j].s, acc[j].t, acc[j].image.width, acc[j].image.height, p.transposed, p.corner)
  }

  /** The loop state agrees with the record: one placement per instance counted, at most SBNUMINSTANCES. */
  predicate TraceOk(p: TextParams, w: Walk, acc: seq<Placement>)
  {
    && w.count == |acc| && w.count <= Max0(p.amount)
    && (StripsAllowed(p.sbStrips) ==> w.stripT % p.sbStrips == 0)
    && w.firstS == LastFirstS(acc, |acc|)
    && PlacementsOk(p, acc)
  }

  /** Appending a placement that fits the record keeps it. */
  lemma PlacementsOkAppend(p: TextParams, acc: seq<Placement>, pl: Placement)
    requires PlacementsOk(p, acc)
    requires StripsAllowed(p.sbStrips) ==> pl.stripT % p.sbStrips == 0
    requires p.sbStrips == 1 ==> pl.t == pl.stripT
    requires pl.first ==> pl.s == LastFirstS(acc, |acc|) + pl.deltaS
    requires !pl.first ==>
      |acc| > 0 && pl.s == acc[|acc| - 1].spot.endS + pl.deltaS + p.sbdsOffset && pl.stripT == acc[|acc| - 1].stripT
    requires pl.spot == Place(pl.s, pl.t, pl.image.width, pl.image.height, p.transposed, p.corner)
    ensures PlacementsOk(p, acc + [pl])
  {
    var acc' := acc + [pl];
    forall j | 0 <= j < |acc'|
      ensures acc'[j].first ==> acc'[j].s == LastFirstS(acc', j) + acc'[j].deltaS
    {
      LastFirstSPrefix(acc, pl, j);
    }
  }

  /** What the record must satisfy when the reading ends without an error. */
  predicate Finished(p: TextParams, e: Ending)
  {
    e.failure.None? ==> TraceOk(p, e.final, e.placements) && e.final.count == Max0(p.amount)
  }

  /**
   * What holds at each phase: the record; a count below SBNUMINSTANCES
   * before a strip's first instance; and, within a strip, `currentS` where
   * the last instance ended, in the current strip.
   */
  predicate PhaseOk(p: TextParams, phase: Phase, w: Walk, currentS: int, acc: seq<Placement>)
  {
    && TraceOk(p, w, acc)
    && (phase == FirstInStrip ==> w.count < p.amount)
    && (phase == NextInStrip ==>
          |acc| > 0 && currentS == acc[|acc| - 1].spot.endS && w.stripT == acc[|acc| - 1].stripT)
  }

  /** A step from the top of a strip keeps `PhaseOk`, or ends the loop with every instance in. */
  lemma StartStepKeeps(p: TextParams, src: Sources, w: Walk, currentS: int, acc: seq<Placement>)
    requires w.i <= |src.values| && w.k <= |src.refinements| && PhaseOk(p, StripStart, w, currentS, acc)
    ensures var n := Transition(p, src, StripStart, w, currentS, acc);
      && (n.Done? ==> w.count == Max0(p.amount))
      && (n.Continue? ==> PhaseOk(p, n.phase, n.w, n.currentS, n.placements))
  {
    if w.i < |src.values| {
      var w0 := w.(i := w.i + 1, stripT := w.stripT + src.values[w.i] * p.sbStrips);
      TransitionStart(p, src, w, currentS, acc, w0);
      if w.count < p.amount && StripsAllowed(p.sbStrips) {
        StripMultiple(w.stripT, src.values[w.i], p.sbStrips);
      }
    }
  }


  /** An instance placed where the record expects it leaves the loop within the strip, as `PhaseOk` says. */
  lemma PlaceKeeps(p: TextParams, src: Sources, w: Walk, s: int, acc: seq<Placement>,
                   first: bool, deltaS: int)
    requires w.i <= |src.values| && w.k <= |src.refinements|
    requires PlacementsOk(p, acc) && w.count == |acc| < p.amount
    requires StripsAllowed(p.sbStrips) ==> w.stripT % p.sbStrips == 0
    requires first ==> s == LastFirstS(acc, |acc|) + deltaS && w.firstS == s
    requires !first ==>
      && |acc| > 0 && s == acc[|acc| - 1].spot.endS + deltaS + p.sbdsOffset
      && w.stripT == acc[|acc| - 1].stripT && w.firstS == LastFirstS(acc, |acc|)
    ensures var r := PlaceInstance(p, src, w, s, acc, first, deltaS);
      r.Ok? ==> PhaseOk(p, NextInStrip, r.value.w, r.value.currentS, r.value.placements)
  {
    var r := PlaceInstance(p, src, w, s, acc, first, deltaS);
    if r.Ok? {
      var pl := r.value.placements[|acc|];
      assert r.value.placements == acc + [pl];
      PlacementsOkAppend(p, acc, pl);
      LastFirstSPrefix(acc, pl, |acc|);
    }
  }

  /** A step before a strip's first instance keeps `PhaseOk`, or ends the loop with an error. */
  lemma FirstStepKeeps(p: TextParams, src: Sources, w: Walk, currentS: int, acc: seq<Placement>)
    requires w.i <= |src.values| && w.k <= |src.refinements| && PhaseOk(p, FirstInStrip, w, currentS, acc)
    ensures var n := Transition(p, src, FirstInStrip, w, currentS, acc);
      && (n.Done? ==> w.count == Max0(p.amount))
      && (n.Continue? ==> PhaseOk(p, n.phase, n.w, n.currentS, n.placements))
  {
    if w.i < |src.values| {
      var s := w.firstS + src.values[w.i];
      var w0 := w.(i := w.i + 1, firstS := s);
      PlaceKeeps(p, src, w0, s, acc, true, src.values[w.i]);
      TransitionFirst(p, src, w, currentS, acc, w0, s);
    }
  }


  /** A step within a strip keeps `PhaseOk`, or ends the loop with an error. */
  lemma NextStepKeeps(p: TextParams, src: Sources, w: Walk, currentS: int, acc: seq<Placement>)
    requires w.i <= |src.values| && w.k <= |src.refinements| && PhaseOk(p, NextInStrip, w, currentS, acc)
    ensures var n := Transition(p, src, NextInStrip, w, currentS, acc);
      && (n.Done? ==> w.count == Max0(p.amount))
      && (n.Continue? ==> PhaseOk(p, n.phase, n.w, n.currentS, n.placements))
  {
    if w.i < |src.values| {
      var v := src.values[w.i];
      var s := currentS + (v + p.sbdsOffset);
      var w0 := w.(i := w.i + 1);
      TransitionNext(p, src, w, currentS, acc, w0, s);
      if v == OOB || w.count >= p.amount {
        assert TraceOk(p, w0, acc);
      } else {
        PlaceKeeps(p, src, w0, s, acc, false, v);
      }
    }
  }


  /** The whole loop keeps the record, from any state where `PhaseOk` holds. */
  lemma {:induction false} RunKeepsTrace(p: TextParams, src: Sources, phase: Phase, w: Walk, currentS: int,
                                         acc: seq<Placement>)
    requires w.i <= |src.values| && w.k <= |src.refinements| && PhaseOk(p, phase, w, currentS, acc)
    ensures Finished(p, Run(p, src, phase, w, currentS, acc))
    decreases |src.values| - w.i
  {
    if phase == StripStart {
      StartStepKeeps(p, src, w, currentS, acc);
    } else if phase == FirstInStrip {
      FirstStepKeeps(p, src, w, currentS, acc);
    } else {
      NextStepKeeps(p, src, w, currentS, acc);
    }
    RunUnfold(p, src, phase, w, currentS, acc);
    var n := Transition(p, src, phase, w, currentS, acc);
    if n.Continue? {
      RunKeepsTrace(p, src, n.phase, n.w, n.currentS, n.placements);
    }
  }

  /**
   * A successful decoding places exactly SBNUMINSTANCES instances (none
   * when it is not positive), and its placements satisfy `PlacementsOk`.
   */
  lemma DecodePlacesAll(p: TextParams, src: Sources, currentS: int, d: seq<bv8>)
    ensures var r := Decode(p, src, currentS, d);
      r.Ok? ==> |r.value.placements| == Max0(p.amount) && PlacementsOk(p, r.value.placements)
  {
    if |src.values| > 0 {
      var w := Walk(1, 0, src.values[0] * -p.sbStrips, 0, 0);
      if StripsAllowed(p.sbStrips) {
        StripMultiple(0, src.values[0], p.sbStrips);
      }
      RunKeepsTrace(p, src, StripStart, w, currentS, []);
    }
  }

  /** With SBNUMINSTANCES not positive, only the initial STRIPT is read and nothing is drawn. */
  lemma DecodeNothing(p: TextParams, src: Sources, currentS: int, d: seq<bv8>)
    requires p.amount <= 0 && |src.values| > 0
    ensures Decode(p, src, currentS, d) == Ok(Decoded(d, [], Walk(1, 0, src.values[0] * -p.sbStrips, 0, 0), currentS))
  {
  }

  // ---------------------------------------------------------------------------
  // The segment

  class TextRegion {
    /** The bitmap width and height of the region segment information field. */
    var regionWidth: int
    var regionHeight: int
    var sbrTemplate: nat
    var sbdsOffset: int
    var defaultPixel: nat
    var combinationOperator: CombinationOperator
    var isTransposed: nat
    var referenceCorner: nat
    var logSBStrips: nat
    var sbStrips: int
    var useRefinement: bool
    var isHuffmanEncoded: bool
    /** sbHuffFS ... sbHuffRSize. */
    var huffmanFlags: HuffmanFlags
    /** The refinement AT pixels, `null` unless read. */
    var sbrATX: Option<seq<int>>
    var sbrATY: Option<seq<int>>
    var amountOfSymbolInstances: int
    var currentS: int
    var amountOfSymbols: int
    var symbols: seq<Bitmap>
    var symbolCodeLength: int
    /** The lines of `symbolCodeTable`, `null` until built. */
    var symbolCodes: Option<seq<Code>>
    var regionBitmap: Bitmap?

    /** The object before `parseHeader`: the region's size, every other field at Java's default. */
    constructor (regionWidth: int, regionHeight: int)
      ensures this.regionWidth == regionWidth && this.regionHeight == regionHeight
      ensures sbrTemplate == 0 && sbdsOffset == 0 && defaultPixel == 0 && combinationOperator == OR
      ensures isTransposed == 0 && referenceCorner == 0 && logSBStrips == 0 && sbStrips == 0
      ensures !useRefinement && !isHuffmanEncoded && huffmanFlags == HuffmanFlags(0, 0, 0, 0, 0, 0, 0, 0)
      ensures sbrATX == None && sbrATY == None && amountOfSymbolInstances == 0 && currentS == 0
      ensures amountOfSymbols == 0 && symbols == [] && symbolCodeLength == 0 && symbolCodes == None
      ensures regionBitmap == null
    {
      this.regionWidth, this.regionHeight := regionWidth, regionHeight;
      sbrTemplate, sbdsOffset, defaultPixel, combinationOperator := 0, 0, 0, OR;
      isTransposed, referenceCorner, logSBStrips, sbStrips := 0, 0, 0, 0;
      useRefinement, isHuffmanEncoded, huffmanFlags := false, false, HuffmanFlags(0, 0, 0, 0, 0, 0, 0, 0);
      sbrATX, sbrATY, amountOfSymbolInstances, currentS := None, None, 0, 0;
      amountOfSymbols, symbols, symbolCodeLength, symbolCodes := 0, [], 0, None;
      regionBitmap := null;
    }

    /**
     * `readRegionFlags`, section 7.4.3.1.1.  SBREFINE and SBHUFF are only
     * ever switched on: a clear bit leaves the field as it was.
     */
    method ReadRegionFlags(sis: BitReader) returns (o: Outcome)
      modifies this`sbrTemplate, this`sbdsOffset, this`defaultPixel, this`combinationOperator
      modifies this`isTransposed, this`referenceCorner, this`logSBStrips, this`sbStrips
      modifies this`useRefinement, this`isHuffmanEncoded, sis`pos
      ensures RegionFlagsAt(sis.bits, old(sis.pos)).None? ==> o == Failure(EndOfStream)
      ensures RegionFlagsAt(sis.bits, old(sis.pos)).Some? ==>
        var f := RegionFlagsAt(sis.bits, old(sis.pos)).value;
        && o == Success && sis.pos == old(sis.pos) + 16
        && sbrTemplate == f.sbrTemplate && sbdsOffset == f.sbdsOffset && defaultPixel == f.defaultPixel
        && combinationOperator == f.combinationOperator && isTransposed == f.isTransposed
        && referenceCorner == f.referenceCorner && logSBStrips == f.logSBStrips
        && sbStrips == StripCount(f.logSBStrips)
        && useRefinement == (old(useRefinement) || f.useRefinement)
        && isHuffmanEncoded == (old(isHuffmanEncoded) || f.isHuffmanEncoded)
    {
      o := ReadComposition(sis);
      if o.Failure? { return; }
      o := ReadLayout(sis);
    }

    /** Bits 15 to 7 of the flags: SBRTEMPLATE, SBDSOFFSET, SBDEFPIXEL and SBCOMBOP. */
    method ReadComposition(sis: BitReader) returns (o: Outcome)
      modifies this`sbrTemplate, this`sbdsOffset, this`defaultPixel, this`combinationOperator, sis`pos
      ensures var p := old(sis.pos);
        if p + 9 <= |sis.bits| then
          && o == Success && sis.pos == p + 9
          && sbrTemplate == Flag(sis.bits[p]) && sbdsOffset == SignedFive(FieldAt(sis.bits, p + 1, 5))
          && defaultPixel == Flag(sis.bits[p + 6])
          && combinationOperator == OperatorFromCode(TwoBits(sis.bits, p + 7))
        else o == Failure(EndOfStream)
    {
      var t := sis.ReadBit();
      if t.Fail? { return Failure(t.error); }
      ghost var q := sis.pos;
      var d := sis.ReadBits(5);
      if d.Fail? { return Failure(d.error); }
      assert d.value == FieldAt(sis.bits, q, 5);
      var px := sis.ReadBit();
      if px.Fail? { return Failure(px.error); }
      var c := sis.ReadBits(2);
      if c.Fail? { return Failure(c.error); }
      assert Pow2(5) == 32;
      sbrTemplate := t.value;
      sbdsOffset := SignedFive(d.value);
      defaultPixel := px.value;
      combinationOperator := OperatorFromCode(c.value);
      o := Success;
    }

    /** Bits 6 to 0 of the flags: TRANSPOSED, REFCORNER, LOGSBSTRIPS, SBREFINE and SBHUFF. */
    method ReadLayout(sis: BitReader) returns (o: Outcome)
      modifies this`isTransposed, this`referenceCorner, this`logSBStrips, this`sbStrips
      modifies this`useRefinement, this`isHuffmanEncoded, sis`pos
      ensures var p := old(sis.pos);
        if p + 7 <= |sis.bits| then
          && o == Success && sis.pos == p + 7
          && isTransposed == Flag(sis.bits[p]) && referenceCorner == TwoBits(sis.bits, p + 1)
          && logSBStrips == TwoBits(sis.bits, p + 3) && sbStrips == StripCount(logSBStrips)
          && useRefinement == (old(useRefinement) || sis.bits[p + 5])
          && isHuffmanEncoded == (old(isHuffmanEncoded) || sis.bits[p + 6])
        else o == Failure(EndOfStream)
    {
      var tr := sis.ReadBit();
      if tr.Fail? { return Failure(tr.error); }
      var rc := sis.ReadBits(2);
      if rc.Fail? { return Failure(rc.error); }
      ghost var q := sis.pos;
      var ls := sis.ReadBits(2);
      if ls.Fail? { return Failure(ls.error); }
      assert ls.value == TwoBits(sis.bits, q);
      var rf := sis.ReadBit();
      if rf.Fail? { return Failure(rf.error); }
      var hf := sis.ReadBit();
      if hf.Fail? { return Failure(hf.error); }
      isTransposed := tr.value;
      referenceCorner := rc.value;
      logSBStrips := ls.value;
      sbStrips := StripCount(logSBStrips);
      if rf.value == 1 {
        useRefinement := true;
      }
      if hf.value == 1 {
        isHuffmanEncoded := true;
      }
      o := Success;
    }

    /** `readHuffmanFlags`, section 7.4.3.1.2. */
    method ReadHuffmanFlags(sis: BitReader) returns (o: Outcome)
      modifies this`huffmanFlags, sis`pos
      ensures HuffmanFlagsAt(sis.bits, old(sis.pos)).None? ==> o == Failure(EndOfStream)
      ensures HuffmanFlagsAt(sis.bits, old(sis.pos)).Some? ==>
        o == Success && sis.pos == old(sis.pos) + 16 && huffmanFlags == HuffmanFlagsAt(sis.bits, old(sis.pos)).value
    {
      o := ReadRefinementSelectors(sis);
      if o.Failure? { return; }
      o := ReadSymbolSelectors(sis);
    }

    /** Bits 15 to 8: an unused bit, SBHUFFRSIZE, SBHUFFRDY, SBHUFFRDX and SBHUFFRDH. */
    method ReadRefinementSelectors(sis: BitReader) returns (o: Outcome)
      modifies this`huffmanFlags, sis`pos
      ensures var p := old(sis.pos);
        if p + 8 <= |sis.bits| then
          && o == Success && sis.pos == p + 8
          && huffmanFlags == old(huffmanFlags).(rSize := Flag(sis.bits[p + 1]), rdy := TwoBits(sis.bits, p + 2),
                                                rdx := TwoBits(sis.bits, p + 4), rdh := TwoBits(sis.bits, p + 6))
        else o == Failure(EndOfStream)
    {
      var dirty := sis.ReadBit();
      if dirty.Fail? { return Failure(dirty.error); }
      var rs := sis.ReadBit();
      if rs.Fail? { return Failure(rs.error); }
      var ry := sis.ReadBits(2);
      if ry.Fail? { return Failure(ry.error); }
      var rx := sis.ReadBits(2);
      if rx.Fail? { return Failure(rx.error); }
      var rh := sis.ReadBits(2);
      if rh.Fail? { return Failure(rh.error); }
      huffmanFlags := huffmanFlags.(rSize := rs.value, rdy := ry.value, rdx := rx.value, rdh := rh.value);
      o := Success;
    }

    /** Bits 7 to 0: SBHUFFRDW, SBHUFFDT, SBHUFFDS and SBHUFFFS. */
    method ReadSymbolSelectors(sis: BitReader) returns (o: Outcome)
      modifies this`huffmanFlags, sis`pos
      ensures var p := old(sis.pos);
        if p + 8 <= |sis.bits| then
          && o == Success && sis.pos == p + 8
          && huffmanFlags == old(huffmanFlags).(rdw := TwoBits(sis.bits, p), dt := TwoBits(sis.bits, p + 2),
                                                ds := TwoBits(sis.bits, p + 4), fs := TwoBits(sis.bits, p + 6))
        else o == Failure(EndOfStream)
    {
      var rw := sis.ReadBits(2);
      if rw.Fail? { return Failure(rw.error); }
      var dt := sis.ReadBits(2);
      if dt.Fail? { return Failure(dt.error); }
      var ds := sis.ReadBits(2);
      if ds.Fail? { return Failure(ds.error); }
      var fs := sis.ReadBits(2);
      if fs.Fail? { return Failure(fs.error); }
      huffmanFlags := huffmanFlags.(rdw := rw.value, dt := dt.value, ds := ds.value, fs := fs.value);
      o := Success;
    }

    /**
     * `readUseRefinement`, section 7.4.3.1.3: with refinement and template 0,
     * SBRATX1, SBRATY1, SBRATX2 and SBRATY2, one signed byte each.
     */
    method ReadUseRefinement(sis: BitReader) returns (o: Outcome)
      modifies this`sbrATX, this`sbrATY, sis`pos
      ensures !(useRefinement && sbrTemplate == 0) ==>
        o == Success && sis.pos == old(sis.pos) && sbrATX == old(sbrATX) && sbrATY == old(sbrATY)
      ensures useRefinement && sbrTemplate == 0 ==>
        var q := AlignUp(old(sis.pos));
        if q + 32 <= |sis.bits| then
          && o == Success && sis.pos == q + 32
          && sbrATX == Some([SignedByte(ByteAt(sis.bits, q)), SignedByte(ByteAt(sis.bits, q + 16))])
          && sbrATY == Some([SignedByte(ByteAt(sis.bits, q + 8)), SignedByte(ByteAt(sis.bits, q + 24))])
        else o == Failure(EndOfStream)
    {
      if !(useRefinement && sbrTemplate == 0) {
        return Success;
      }
      ghost var q := AlignUp(sis.pos);
      var x0 := sis.ReadByte();
      if x0.Fail? { return Failure(x0.error); }
      AlignedAfterByte(q);
      var y0 := sis.ReadByte();
      if y0.Fail? { return Failure(y0.error); }
      AlignedAfterByte(q + 8);
      var x1 := sis.ReadByte();
      if x1.Fail? { return Failure(x1.error); }
      AlignedAfterByte(q + 16);
      var y1 := sis.ReadByte();
      if y1.Fail? { return Failure(y1.error); }
      sbrATX := Some([x0.value, x1.value]);
      sbrATY := Some([y0.value, y1.value]);
      o := Success;
    }

    /**
     * `readAmountOfSymbolInstances`, section 7.4.3.1.4: SBNUMINSTANCES,
     * limited to one instance per pixel of the region.
     */
    method ReadAmountOfSymbolInstances(sis: BitReader) returns (o: Outcome)
      modifies this`amountOfSymbolInstances, sis`pos
      ensures var p := old(sis.pos);
        if p + 32 <= |sis.bits| then
          && o == Success && sis.pos == p + 32
          && amountOfSymbolInstances <= WordAt(sis.bits, p)
          && amountOfSymbolInstances <= regionWidth * regionHeight
          && (amountOfSymbolInstances == WordAt(sis.bits, p)
              || amountOfSymbolInstances == regionWidth * regionHeight)
        else o == Failure(EndOfStream)
    {
      var n := sis.ReadBits(32);
      if n.Fail? { return Failure(n.error); }
      amountOfSymbolInstances := n.value;
      var pixels := regionWidth * regionHeight;
      if pixels < amountOfSymbolInstances {
        amountOfSymbolInstances := pixels;
      }
      o := Success;
    }

    /**
     * `getSymbols` and `initSymbols`: with referred-to segments, the symbols
     * of every referred symbol dictionary are appended, and
     * `amountOfSymbols` counts them all.
     */
    method GetSymbols(referred: Option<seq<Option<Referred>>>) returns (o: Outcome)
      modifies this`symbols, this`amountOfSymbols
      ensures referred.None? ==> o == Success && symbols == old(symbols) && amountOfSymbols == old(amountOfSymbols)
      ensures referred.Some? ==> match SymbolsOf(referred.value)
        case Fail(e) => o == Failure(e)
        case Ok(found) => o == Success && symbols == old(symbols) + found && amountOfSymbols == |symbols|
    {
      if referred.None? {
        return Success;
      }
      var rs := referred.value;
      ghost var before := symbols;
      var i := 0;
      while i < |rs|
        invariant 0 <= i <= |rs| && SymbolsOf(rs[..i]).Ok?
        invariant symbols == before + SymbolsOf(rs[..i]).value
      {
        assert rs[..i + 1][..i] == rs[..i];
        if rs[i].None? {
          assert !PresentUpTo(rs[..i + 1], i + 1);
          SymbolsOfPrefixFails(rs, i + 1);
          return Failure(NullReference);
        }
        if rs[i].value.segmentType == 0 {
          symbols := symbols + rs[i].value.dictionary;
        }
        i := i + 1;
      }
      assert rs[..|rs|] == rs;
      amountOfSymbols := |symbols|;
      o := Success;
    }

    /**
     * `getUserTable`: the referred table segment (type 53) at `position`
     * among the table segments, as an index into the referred segments;
     * `None` for Java's `null` when there are fewer tables.
     */
    static method GetUserTable(position: nat, referred: Option<seq<Option<Referred>>>) returns (r: Result<Option<nat>>)
      ensures referred.None? ==> r == Fail(NullReference)
      ensures referred.Some? && r.Ok? && r.value.Some? ==>
        var rs, j := referred.value, r.value.value;
        && j < |rs| && PresentUpTo(rs, j + 1) && rs[j].value.segmentType == 53 && TablesBefore(rs, j) == position
      ensures referred.Some? && r.Ok? && r.value.None? ==>
        var rs := referred.value;
        PresentUpTo(rs, |rs|) && TablesBefore(rs, |rs|) <= position
      ensures referred.Some? && r.Fail? ==>
        var rs := referred.value;
        && r.error == NullReference
        && exists j :: 0 <= j < |rs| && rs[j].None? && PresentUpTo(rs, j) && TablesBefore(rs, j) <= position
    {
      if referred.None? {
        return Fail(NullReference);
      }
      var rs := referred.value;
      var tableCounter := 0;
      var i := 0;
      while i < |rs|
        invariant 0 <= i <= |rs| && PresentUpTo(rs, i)
        invariant tableCounter == TablesBefore(rs, i) && tableCounter <= position
      {
        if rs[i].None? {
          return Fail(NullReference);
        }
        if rs[i].value.segmentType == 53 {
          if tableCounter == position {
            return Ok(Some(i));
          }
          tableCounter := tableCounter + 1;
        }
        i := i + 1;
      }
      r := Ok(None);
    }

    /**
     * `checkInput`: without refinement the refinement template is 0;
     * the selector value 2 for FS, RDW, RDH, RDX or RDY is refused; and
     * without refinement the refinement selectors are reset to 0.
     */
    method CheckInput() returns (o: Outcome)
      modifies this`sbrTemplate, this`huffmanFlags
      ensures sbrTemplate == if useRefinement then old(sbrTemplate) else 0
      ensures SelectorRejected(old(huffmanFlags)) ==> o == Failure(InvalidHeaderValue) && huffmanFlags == old(huffmanFlags)
      ensures !SelectorRejected(old(huffmanFlags)) ==>
        && o == Success && !SelectorRejected(huffmanFlags)
        && huffmanFlags == if useRefinement then old(huffmanFlags) else WithoutRefinementTables(old(huffmanFlags))
    {
      if !useRefinement {
        sbrTemplate := 0;
      }
      if SelectorRejected(huffmanFlags) {
        return Failure(InvalidHeaderValue);
      }
      if !useRefinement {
        huffmanFlags := WithoutRefinementTables(huffmanFlags);
      }
      o := Success;
    }

    /** The 35 four-bit prefix lengths of the run codes (section 7.4.3.1.7, steps 1 and 2). */
    static method ReadRunCodeTable(sis: BitReader) returns (r: Result<seq<Code>>)
      modifies sis`pos
      ensures var p := old(sis.pos);
        if p + 140 <= |sis.bits| then r == Ok(RunCodeTableAt(sis.bits, p, 35)) && sis.pos == p + 140
        else r == Fail(EndOfStream)
    {
      ghost var p := sis.pos;
      var runCodeTable: seq<Code> := [];
      var i := 0;
      while i < 35
        invariant 0 <= i <= 35 && sis.pos == p + 4 * i && (i == 0 || p + 4 * i <= |sis.bits|)
        invariant runCodeTable == RunCodeTableAt(sis.bits, p, i)
      {
        var prefLen := sis.ReadBits(4);
        if prefLen.Fail? { return Fail(prefLen.error); }
        RunCodeTableStep(sis.bits, p, i, prefLen.value);
        if prefLen.value > 0 {
          runCodeTable := runCodeTable + [Code(prefLen.value, i)];
        }
        i := i + 1;
      }
      r := Ok(runCodeTable);
    }

    /**
     * `symbolIDCodeLengths`: the run-code table, then the run codes `tokens`,
     * which take `runCodeBits` bits of the stream, then a skip to the next
     * byte; the table lines for the symbols with a non-zero length.
     */
    static method ReadSymbolIdCodes(sis: BitReader, tokens: seq<RunToken>, runCodeBits: nat, amountOfSymbols: int)
      returns (r: Result<seq<Code>>)
      modifies sis`pos
      ensures old(sis.pos) + 140 + runCodeBits <= |sis.bits| ==> sis.pos == AlignUp(old(sis.pos) + 140 + runCodeBits)
      ensures if old(sis.pos) + 140 + runCodeBits > |sis.bits| then r == Fail(EndOfStream)
        else r == SymbolIdCodesAsWritten(tokens, amountOfSymbols)
    {
      ghost var start := sis.pos;
      var runCodeTable := ReadRunCodeTable(sis);
      if runCodeTable.Fail? { return Fail(runCodeTable.error); }
      assert start + 140 <= |sis.bits| && sis.pos == start + 140;
      r := ReadRunCodes(sis, tokens, runCodeBits, amountOfSymbols, start);
    }

    /**
     * The run codes after the run-code table, which ends 140 bits past
     * `tableStart`, and the skip to the next byte.
     */
    static method ReadRunCodes(sis: BitReader, tokens: seq<RunToken>, runCodeBits: nat, amountOfSymbols: int,
                               ghost tableStart: nat)
      returns (r: Result<seq<Code>>)
      requires sis.pos == tableStart + 140
      modifies sis`pos
      ensures tableStart + 140 + runCodeBits <= |sis.bits| ==> sis.pos == AlignUp(tableStart + 140 + runCodeBits)
      ensures if tableStart + 140 + runCodeBits > |sis.bits| then r == Fail(EndOfStream)
        else r == SymbolIdCodesAsWritten(tokens, amountOfSymbols)
    {
      var runCodes := sis.Advance(runCodeBits);
      if runCodes.Failure? { return Fail(runCodes.error); }
      sis.SkipBits();
      assert sis.pos == AlignUp(tableStart + 140 + runCodeBits);
      r := SymbolIdCodeLengthsAsWritten(tokens, amountOfSymbols);
    }

    /**
     * `computeSymbolCodeLength`: with Huffman coding, the symbol ID table
     * `ReadSymbolIdCodes` gives; otherwise the number of bits that number
     * the symbols.
     */
    method ComputeSymbolCodeLength(sis: BitReader, tokens: seq<RunToken>, runCodeBits: nat) returns (o: Outcome)
      modifies this`symbolCodeLength, this`symbolCodes, sis`pos
      ensures !isHuffmanEncoded ==>
        o == Success && symbolCodeLength == BitsPerValue(if amountOfSymbols < 0 then 0 else amountOfSymbols)
        && symbolCodes == old(symbolCodes) && sis.pos == old(sis.pos)
      ensures isHuffmanEncoded ==>
        symbolCodeLength == old(symbolCodeLength)
        && if old(sis.pos) + 140 + runCodeBits > |sis.bits| then o == Failure(EndOfStream)
           else match LengthsAsWrittenFrom(tokens, 0, amountOfSymbols, [], 0)
             case None => o == Failure(EndOfStream)
             case Some(lengths) =>
               o == Success && symbolCodes == Some(NonZeroCodes(lengths))
               && sis.pos == AlignUp(old(sis.pos) + 140 + runCodeBits)
    {
      if !isHuffmanEncoded {
        symbolCodeLength := BitsPerValue(if amountOfSymbols < 0 then 0 else amountOfSymbols);
        return Success;
      }
      var codes := ReadSymbolIdCodes(sis, tokens, runCodeBits, amountOfSymbols);
      if codes.Fail? { return Failure(codes.error); }
      symbolCodes := Some(codes.value);
      o := Success;
    }

    /** The decoding parameters the header fields and the region bitmap give. */
    ghost function Params(): TextParams
      reads this`isHuffmanEncoded, this`useRefinement, this`sbStrips, this`sbdsOffset, this`isTransposed
      reads this`referenceCorner, this`amountOfSymbolInstances, this`combinationOperator, this`regionBitmap
      requires regionBitmap != null
    {
      TextParams(isHuffmanEncoded, useRefinement, sbStrips, sbdsOffset, isTransposed, referenceCorner,
                 amountOfSymbolInstances, combinationOperator, regionBitmap.width, regionBitmap.height,
                 regionBitmap.rowStride)
    }

    /** `images` are the bitmaps as values. */
    static ghost predicate Shows(bitmaps: seq<Bitmap>, images: seq<Image>)
      reads set i | 0 <= i < |bitmaps| :: bitmaps[i].bitmap
    {
      |bitmaps| == |images| && forall i :: 0 <= i < |bitmaps| ==> ImageOf(bitmaps[i]) == images[i]
    }

    /**
     * The region bitmap is in place, the symbols and the refined bitmaps
     * are valid bitmaps apart from it, and `p` and `src` are what the
     * object and the collaborators' output give.
     */
    ghost predicate Ready(values: seq<int>, refinements: seq<Bitmap>, p: TextParams, src: Sources)
      reads this`isHuffmanEncoded, this`useRefinement, this`sbStrips, this`sbdsOffset, this`isTransposed
      reads this`referenceCorner, this`amountOfSymbolInstances, this`combinationOperator, this`regionBitmap
      reads this`symbols, set i | 0 <= i < |symbols| :: symbols[i].bitmap
      reads set i | 0 <= i < |refinements| :: refinements[i].bitmap
    {
      && regionBitmap != null && regionBitmap.Valid()
      && SourcesFit(symbols, regionBitmap) && SourcesFit(refinements, regionBitmap)
      && p == Params() && src.values == values && Shows(symbols, src.symbols) && Shows(refinements, src.refinements)
    }

    /**
     * `getRegionBitmap`: `createRegionBitmap`, then the symbol instances.
     * `values` stands for what the entropy decoders return, in the order
     * they are asked, and `refinements` for what the refinement decoder
     * returns; the region is what `Decode` paints onto the filled region.
     */
    method GetRegionBitmap(values: seq<int>, refinements: seq<Bitmap>) returns (r: Result<Bitmap>)
      requires forall i :: 0 <= i < |symbols| ==> symbols[i].Valid()
      requires forall i :: 0 <= i < |refinements| ==> refinements[i].Valid()
      modifies this`regionBitmap, this`currentS
      ensures regionHeight * RowStride(regionWidth) < 0 ==> r == Fail(NegativeSize) && regionBitmap == old(regionBitmap)
      ensures regionHeight * RowStride(regionWidth) >= 0 ==>
        && regionBitmap != null && fresh(regionBitmap) && regionBitmap.Valid()
        && regionBitmap.width == regionWidth && regionBitmap.height == regionHeight
        && var res := Decode(Params(), old(Sources(values, ImagesOf(symbols), ImagesOf(refinements))), old(currentS),
                             InitialRegion(regionHeight * RowStride(regionWidth), defaultPixel != 0));
           && (r.Ok? <==> res.Ok?)
           && (res.Fail? ==> r == Fail(res.error))
           && (res.Ok? ==> r.value == regionBitmap && regionBitmap.bitmap[..] == res.value.bytes
                           && currentS == res.value.currentS)
    {
      if regionHeight * RowStride(regionWidth) < 0 {
        return Fail(NegativeSize);
      }
      ghost var src := Sources(values, ImagesOf(symbols), ImagesOf(refinements));
      var region := CreateRegionBitmap(refinements);
      assert Sources(values, ImagesOf(symbols), ImagesOf(refinements)) == src;
      ghost var p := Params();
      ghost var initial := regionBitmap.bitmap[..];
      var o := DecodeSymbolInstances(values, refinements);
      ghost var res := Decode(p, src, old(currentS), initial);
      assert o.Success? <==> res.Ok?;
      r := if o.Success? then Ok(region) else Fail(o.error);
    }

    /**
     * `createRegionBitmap`, step 1 of section 6.4.5: a fresh region of the
     * segment's size, every byte 0xff when SBDEFPIXEL is 1; its buffer is
     * apart from those of the symbols and of the refined bitmaps.
     */
    method CreateRegionBitmap(refinements: seq<Bitmap>) returns (region: Bitmap)
      requires 0 <= regionHeight * RowStride(regionWidth)
      requires forall i :: 0 <= i < |symbols| ==> symbols[i].Valid()
      requires forall i :: 0 <= i < |refinements| ==> refinements[i].Valid()
      modifies this`regionBitmap
      ensures regionBitmap == region && fresh(region) && fresh(region.bitmap) && region.Valid()
      ensures region.width == regionWidth && regionBitmap.height == regionHeight
      ensures regionBitmap.bitmap[..] == InitialRegion(regionHeight * RowStride(regionWidth), defaultPixel != 0)
      ensures SourcesFit(symbols, regionBitmap) && SourcesFit(refinements, regionBitmap)
    {
      region := NewRegion(regionWidth, regionHeight, defaultPixel != 0, symbols + refinements);
      assert forall i :: 0 <= i < |symbols| ==> (symbols + refinements)[i] == symbols[i];
      assert forall i :: 0 <= i < |refinements| ==> (symbols + refinements)[|symbols| + i] == refinements[i];
      regionBitmap := region;
    }

    /**
     * `decodeSymbolInstances`, section 6.4.5: STRIPT from `decodeStripT`,
     * then strip after strip while fewer than SBNUMINSTANCES instances are
     * placed; the result is `Decode` of the region as it was.
     */
    method DecodeSymbolInstances(values: seq<int>, refinements: seq<Bitmap>) returns (o: Outcome)
      requires regionBitmap != null && regionBitmap.Valid()
      requires SourcesFit(symbols, regionBitmap) && SourcesFit(refinements, regionBitmap)
      modifies this`currentS, regionBitmap.bitmap
      ensures var res := Decode(old(Params()), old(Sources(values, ImagesOf(symbols), ImagesOf(refinements))),
                                old(currentS), old(regionBitmap.bitmap[..]));
        && (o.Success? <==> res.Ok?)
        && (res.Fail? ==> o == Failure(res.error))
        && (res.Ok? ==> regionBitmap.bitmap[..] == res.value.bytes && currentS == res.value.currentS)
      ensures Ready(values, refinements, old(Params()), old(Sources(values, ImagesOf(symbols), ImagesOf(refinements))))
    {
      ghost var p := Params();
      ghost var src := Sources(values, ImagesOf(symbols), ImagesOf(refinements));
      ghost var d0 := regionBitmap.bitmap[..];
      ghost var s0 := currentS;
      if |values| == 0 {
        return Failure(EndOfStream);
      }
      var w := Walk(1, 0, values[0] * -sbStrips, 0, 0);
      ghost var acc: seq<Placement> := [];
      ghost var target := Run(p, src, StripStart, w, currentS, acc);
      while w.count < amountOfSymbolInstances
        invariant Ready(values, refinements, p, src) && w.i <= |values| && w.k <= |refinements|
        invariant Run(p, src, StripStart, w, currentS, acc) == target
        invariant Paint(p, d0, acc) == Some(regionBitmap.bitmap[..])
        decreases |values| - w.i
      {
        if w.i >= |values| {
          RunAtEnd(p, src, StripStart, w, currentS, acc);
          DecodeFails(p, src, s0, d0, target, EndOfStream);
          return Failure(EndOfStream);
        }
        o, w, acc := DecodeNextStrip(values, refinements, w, acc, p, src, d0, target);
        if o.Failure? {
          DecodeFails(p, src, s0, d0, target, o.error);
          return;
        }
      }
      RunDone(p, src, w, currentS, acc);
      DecodeSucceeds(p, src, s0, d0, target, regionBitmap.bitmap[..]);
      o := Success;
    }

    /**
     * Step 3 b) of section 6.4.5 followed by the strip it starts: STRIPT
     * moves by DT times SBSTRIPS and CURS is reset before the strip is read.
     */
    method DecodeNextStrip(values: seq<int>, refinements: seq<Bitmap>, w: Walk, ghost acc: seq<Placement>,
                           ghost p: TextParams, ghost src: Sources, ghost d0: seq<bv8>, ghost target: Ending)
      returns (o: Outcome, w': Walk, ghost acc': seq<Placement>)
      requires Ready(values, refinements, p, src) && w.i < |values| && w.k <= |refinements|
      requires w.count < amountOfSymbolInstances
      requires Run(p, src, StripStart, w, currentS, acc) == target
      requires Paint(p, d0, acc) == Some(regionBitmap.bitmap[..])
      modifies this`currentS, regionBitmap.bitmap
      ensures Ready(values, refinements, p, src)
      ensures o.Failure? ==> FailsAs(p, d0, target, o.error)
      ensures o.Success? ==>
        && w.i < w'.i <= |values| && w'.k <= |refinements|
        && Run(p, src, StripStart, w', currentS, acc') == target
        && Paint(p, d0, acc') == Some(regionBitmap.bitmap[..])
    {
      var dT := values[w.i] * sbStrips;
      var w0 := w.(i := w.i + 1, stripT := w.stripT + dT);
      StartStep(p, src, w, currentS, acc, w0);
      currentS := 0;
      o, w', acc' := DecodeStrip(values, refinements, w0, acc, p, src, d0, target);
    }

    /**
     * Step 3 c) of section 6.4.5, one strip: the first instance at FIRSTS
     * plus DFS, each further one IDS + SBDSOFFSET past the previous one's
     * far edge, until IDS is OOB or SBNUMINSTANCES instances are placed.
     * `target` is how the reading from the start ends and `d0` the
     * region's bytes before the first instance.
     */
    method DecodeStrip(values: seq<int>, refinements: seq<Bitmap>, w: Walk, ghost acc: seq<Placement>,
                       ghost p: TextParams, ghost src: Sources, ghost d0: seq<bv8>, ghost target: Ending)
      returns (o: Outcome, w': Walk, ghost acc': seq<Placement>)
      requires Ready(values, refinements, p, src) && w.i <= |values| && w.k <= |refinements|
      requires Run(p, src, FirstInStrip, w, currentS, acc) == target
      requires Paint(p, d0, acc) == Some(regionBitmap.bitmap[..])
      modifies this`currentS, regionBitmap.bitmap
      ensures Ready(values, refinements, p, src)
      ensures o.Failure? ==> FailsAs(p, d0, target, o.error)
      ensures o.Success? ==>
        && w.i <= w'.i <= |values| && w'.k <= |refinements|
        && Run(p, src, StripStart, w', currentS, acc') == target
        && Paint(p, d0, acc') == Some(regionBitmap.bitmap[..])
    {
      w', acc' := w, acc;
      var first := true;
      var inStrip := true;
      o := Success;
      while inStrip
        invariant Ready(values, refinements, p, src) && w.i <= w'.i <= |values| && w'.k <= |refinements|
        invariant Paint(p, d0, acc') == Some(regionBitmap.bitmap[..]) && o == Success
        invariant inStrip ==> Run(p, src, if first then FirstInStrip else NextInStrip, w', currentS, acc') == target
        invariant !inStrip ==> Run(p, src, StripStart, w', currentS, acc') == target
        decreases |values| - w'.i, inStrip
      {
        if w'.i >= |values| {
          RunAtEnd(p, src, if first then FirstInStrip else NextInStrip, w', currentS, acc');
          return Failure(EndOfStream), w', acc';
        }
        if first {
          o, w', acc' := PlaceFirst(values, refinements, w', acc', p, src, d0, target);
          if o.Failure? {
            return;
          }
          first := false;
        } else {
          var idS := values[w'.i];
          var w0 := w'.(i := w'.i + 1);
          if idS == OOB || w'.count >= amountOfSymbolInstances {
            NextEnds(p, src, w', currentS, acc', w0);
            w' := w0;
            inStrip := false;
          } else {
            o, w', acc' := PlaceNext(values, refinements, w', acc', p, src, d0, target);
            if o.Failure? {
              return;
            }
          }
        }
      }
    }

    /**
     * The first instance of a strip, at FIRSTS + DFS: drawn in step with
     * `target`, it fails as the whole reading does or leaves the state the
     * next instance starts from.
     */
    method PlaceFirst(values: seq<int>, refinements: seq<Bitmap>, w: Walk, ghost acc: seq<Placement>,
                      ghost p: TextParams, ghost src: Sources, ghost d0: seq<bv8>, ghost target: Ending)
      returns (o: Outcome, w': Walk, ghost acc': seq<Placement>)
      requires Ready(values, refinements, p, src) && w.i < |values| && w.k <= |refinements|
      requires Run(p, src, FirstInStrip, w, currentS, acc) == target
      requires Paint(p, d0, acc) == Some(regionBitmap.bitmap[..])
      modifies this`currentS, regionBitmap.bitmap
      ensures Ready(values, refinements, p, src)
      ensures o.Failure? ==> FailsAs(p, d0, target, o.error)
      ensures o.Success? ==>
        && w.i < w'.i <= |values| && w'.k <= |refinements|
        && Run(p, src, NextInStrip, w', currentS, acc') == target
        && Paint(p, d0, acc') == Some(regionBitmap.bitmap[..])
    {
      var dfS := values[w.i];
      var s := w.firstS + dfS;
      var w0 := w.(i := w.i + 1, firstS := s);
      FirstPlaced(p, src, d0, target, w, currentS, acc, regionBitmap.bitmap[..], w0, s);
      currentS := s;
      o, w', acc' := DecodeInstance(values, refinements, w0, acc, true, dfS, p, src);
    }

    /**
     * A further instance of a strip, IDS + SBDSOFFSET past the previous
     * one, as `PlaceFirst` for the first.
     */
    method PlaceNext(values: seq<int>, refinements: seq<Bitmap>, w: Walk, ghost acc: seq<Placement>,
                     ghost p: TextParams, ghost src: Sources, ghost d0: seq<bv8>, ghost target: Ending)
      returns (o: Outcome, w': Walk, ghost acc': seq<Placement>)
      requires Ready(values, refinements, p, src) && w.i < |values| && w.k <= |refinements|
      requires values[w.i] != OOB && w.count < amountOfSymbolInstances
      requires Run(p, src, NextInStrip, w, currentS, acc) == target
      requires Paint(p, d0, acc) == Some(regionBitmap.bitmap[..])
      modifies this`currentS, regionBitmap.bitmap
      ensures Ready(values, refinements, p, src)
      ensures o.Failure? ==> FailsAs(p, d0, target, o.error)
      ensures o.Success? ==>
        && w.i < w'.i <= |values| && w'.k <= |refinements|
        && Run(p, src, NextInStrip, w', currentS, acc') == target
        && Paint(p, d0, acc') == Some(regionBitmap.bitmap[..])
    {
      var idS := values[w.i];
      var s := currentS + (idS + sbdsOffset);
      var w0 := w.(i := w.i + 1);
      NextPlaced(p, src, d0, target, w, currentS, acc, regionBitmap.bitmap[..], w0, s);
      currentS := s;
      o, w', acc' := DecodeInstance(values, refinements, w0, acc, false, idS, p, src);
    }

    /**
     * Steps 3 c) iii) to x) of section 6.4.5 for the instance at the S
     * coordinate `currentS`: read it, then `blit` it; it ends as
     * `DrawInstance` says.
     */
    method DecodeInstance(values: seq<int>, refinements: seq<Bitmap>, w: Walk, ghost acc: seq<Placement>,
                          first: bool, deltaS: int, ghost p: TextParams, ghost src: Sources)
      returns (o: Outcome, w': Walk, ghost acc': seq<Placement>)
      requires Ready(values, refinements, p, src) && w.i <= |values| && w.k <= |refinements|
      modifies this`currentS, regionBitmap.bitmap
      ensures Ready(values, refinements, p, src)
      ensures var r := DrawInstance(p, src, w, old(currentS), acc, first, deltaS, old(regionBitmap.bitmap[..]));
        && (r.Fail? ==> o == Failure(r.error))
        && (r.Ok? ==> o == Success && regionBitmap.bitmap[..] == r.value.bytes && w' == r.value.step.w
                      && acc' == r.value.step.placements && currentS == r.value.step.currentS)
    {
      ghost var s, d := currentS, regionBitmap.bitmap[..];
      w', acc' := w, acc;
      var ib, t, i', k' := ReadInstance(values, refinements, w, p, src);
      if ib.Fail? {
        return Failure(ib.error), w', acc';
      }
      ghost var read := InstanceAt(p, src, w.i, w.k).value;
      ghost var spot := Place(s, t, ib.value.width, ib.value.height, isTransposed, referenceCorner);
      ghost var pl := Placement(first, deltaS, s, t, w.stripT, read.ib.image, read.ib.symbol, read.ib.request, spot);
      w' := w.(i := i', k := k', count := w.count + 1);
      acc' := acc + [pl];
      DrawnAs(p, src, w, s, acc, first, deltaS, d, read, t, spot, pl, w');
      o := Blit(ib.value, t);
    }

    /**
     * Steps 3 c) iii) to v) of section 6.4.5: CURT (0 with one strip), the
     * symbol ID, RI (0 without refinement) and `decodeIb`, as `InstanceAt`
     * reads them; `t` is STRIPT + CURT.
     */
    method ReadInstance(values: seq<int>, refinements: seq<Bitmap>, w: Walk, ghost p: TextParams, ghost src: Sources)
      returns (ib: Result<Bitmap>, t: int, i': nat, k': nat)
      requires Ready(values, refinements, p, src) && w.i <= |values| && w.k <= |refinements|
      ensures match InstanceAt(p, src, w.i, w.k)
        case Fail(e) => ib == Fail(e)
        case Ok(read) =>
          && ib.Ok? && ib.value.Valid() && ib.value.bitmap != regionBitmap.bitmap
          && ImageOf(ib.value) == read.ib.image && t == w.stripT + read.currentT
          && i' == read.ib.i && k' == read.ib.k
    {
      var i := w.i;
      var currentT := 0;
      t, i', k' := 0, 0, 0;
      if sbStrips != 1 {
        if i >= |values| {
          return Fail(EndOfStream), t, i', k';
        }
        currentT := values[i];
        i := i + 1;
      }
      t := w.stripT + currentT;
      if i >= |values| {
        return Fail(EndOfStream), t, i', k';
      }
      var id := values[i];
      i := i + 1;
      var r := 0;
      if useRefinement {
        if i >= |values| {
          return Fail(EndOfStream), t, i', k';
        }
        r := values[i];
        i := i + 1;
      }
      ib, i', k' := DecodeIb(r, id, values, i, refinements, w.k, p, src);
    }

    /**
     * `decodeIb(r, id)`, section 6.4.11: the symbol itself when R is 0;
     * otherwise RDW, RDH, RDX, RDY (and, with Huffman coding, the size of
     * the refinement data) and then the bitmap the refinement decoder
     * returns.  `i` and `k` count the decoded values and refined bitmaps
     * used so far.
     */
    method DecodeIb(r: int, id: int, values: seq<int>, i: nat, refinements: seq<Bitmap>, k: nat,
                    ghost p: TextParams, ghost src: Sources)
      returns (ib: Result<Bitmap>, i': nat, k': nat)
      requires Ready(values, refinements, p, src) && i <= |values| && k <= |refinements|
      ensures match IbAt(p, src, r, id, i, k)
        case Fail(e) => ib == Fail(e)
        case Ok(b) =>
          && ib.Ok? && ib.value.Valid() && ib.value.bitmap != regionBitmap.bitmap
          && ImageOf(ib.value) == b.image && i' == b.i && k' == b.k
    {
      i', k' := i, k;
      var index := Wrap32(id);
      if r == 0 {
        if !(0 <= index < |symbols|) {
          return Fail(IndexOutOfBounds), i', k';
        }
        return Ok(symbols[index]), i', k';
      }
      var n := if isHuffmanEncoded then 5 else 4;
      if i + n > |values| {
        return Fail(EndOfStream), i', k';
      }
      if !(0 <= index < |symbols|) {
        return Fail(IndexOutOfBounds), i', k';
      }
      if k >= |refinements| {
        return Fail(EndOfStream), i', k';
      }
      ib, i', k' := Ok(refinements[k]), i + n, k + 1;
    }

    /**
     * The arithmetic at the head of `blit`: the S and T of the symbol's
     * origin, before truncation, and `currentS` once the symbol is drawn.
     */
    static method Anchor(currentS: int, t: int, w: int, h: int, transposed: nat, corner: nat)
      returns (s: int, t': int, after: int)
      ensures Place(currentS, t, w, h, transposed, corner) == Spot(Wrap32(s), Wrap32(t'), after)
    {
      var cs := currentS;
      if transposed == 0 && (corner == 2 || corner == 3) {
        cs := cs + (w - 1);
      } else if transposed == 1 && (corner == 0 || corner == 2) {
        cs := cs + (h - 1);
      }
      ghost var before := cs;
      s, t' := cs, t;
      if transposed == 1 {
        s, t' := t', s;
      }
      ghost var s0, t0 := s, t';
      if corner != 1 {
        if corner == 0 {
          t' := t' - (h - 1);
        } else if corner == 2 {
          t' := t' - (h - 1);
          s := s - (w - 1);
        } else if corner == 3 {
          s := s - (w - 1);
        }
      }
      assert t' == if corner == 0 || corner == 2 then t0 - (h - 1) else t0;
      assert s == if corner == 2 || corner == 3 then s0 - (w - 1) else s0;
      if transposed == 0 && (corner == 0 || corner == 1) {
        cs := cs + (w - 1);
      } else if transposed == 1 && (corner == 1 || corner == 3) {
        cs := cs + (h - 1);
      }
      after := cs;
      assert after == if transposed == 0 && (corner == 0 || corner == 1) then before + (w - 1)
                      else if transposed == 1 && (corner == 1 || corner == 3) then before + (h - 1)
                      else before;
    }

    /**
     * `blit(ib, t)`: the symbol drawn where `Place` puts it, with the
     * region's combination operator; `currentS` moves to its far edge.
     * A blit outside the buffers fails with the region as it was.
     */
    method Blit(ib: Bitmap, t: int) returns (o: Outcome)
      requires regionBitmap != null && regionBitmap.Valid() && ib.Valid() && ib.bitmap != regionBitmap.bitmap
      modifies this`currentS, regionBitmap.bitmap
      ensures var spot := Place(old(currentS), t, ib.width, ib.height, isTransposed, referenceCorner);
        match BlitImage(old(regionBitmap.bitmap[..]), regionBitmap.width, regionBitmap.height,
                        regionBitmap.rowStride, ImageOf(ib), spot.x, spot.y, combinationOperator)
        case None => o == Failure(IndexOutOfBounds) && regionBitmap.bitmap[..] == old(regionBitmap.bitmap[..])
        case Some(d') => o == Success && regionBitmap.bitmap[..] == d' && currentS == spot.endS
    {
      ghost var before := regionBitmap.bitmap[..];
      ghost var spot := Place(currentS, t, ib.width, ib.height, isTransposed, referenceCorner);
      var s, t', cs := Anchor(currentS, t, ib.width, ib.height, isTransposed, referenceCorner);
      ghost var image := ImageOf(ib);
      ghost var res := BlitImage(before, regionBitmap.width, regionBitmap.height, regionBitmap.rowStride,
                                 image, spot.x, spot.y, combinationOperator);
      o := Blitting.Blit(ib, regionBitmap, Wrap32(s), Wrap32(t'), combinationOperator);
      assert ImageOf(ib) == image;
      if o.Success? {
        assert res == Some(regionBitmap.bitmap[..]);
        currentS := cs;
      } else {
        assert res.None? && regionBitmap.bitmap[..] == before;
      }
    }
  }
}
