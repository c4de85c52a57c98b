/**
 * The image input stream the segment parsers read from, modelled as the
 * sequence of its bits (every byte expanded most significant bit first) and
 * a bit cursor.  `ReadBits(k)` is `ImageInputStream.readBits(k)`; reading
 * past the end is the stream's EOFException.
 */
module BitStream {
  import opened BitUtil

  /** The bits of a byte sequence, each byte most significant bit first. */
  function BytesToBits(bytes: seq<bv8>): (r: seq<bool>)
    ensures |r| == 8 * |bytes|
  {
    if |bytes| == 0 then []
    else ToBits(bytes[0] as nat, 8) + BytesToBits(bytes[1..])
  }

  /** Rounds a bit position up to the next byte boundary. */
  function AlignUp(pos: nat): (r: nat)
    ensures r % 8 == 0 && pos <= r < pos + 8
  {
    if pos % 8 == 0 then pos else pos + (8 - pos % 8)
  }

  /** A position a whole byte past an aligned one is aligned. */
  lemma AlignedAfterByte(q: nat)
    requires AlignUp(q) == q
    ensures AlignUp(q + 8) == q + 8
  {
    assert (q + 8) % 8 == q % 8;
  }

  /** The unsigned value of the byte whose eight bits start at bit `start`. */
  function ByteAt(bits: seq<bool>, start: nat): (r: nat)
    requires start + 8 <= |bits|
    ensures r < 256 && r == BitsValue(bits[start..start + 8])
  {
    BitsValueByte(bits[start..start + 8]);
    BitsValue(bits[start..start + 8])
  }

  /** A flag bit as the 0 or 1 that `readBit()` returns. */
  function Flag(b: bool): (r: nat)
    ensures r <= 1 && (r == 1 <==> b)
  {
    if b then 1 else 0
  }

  /** The two-bit template field at bit `f`. */
  function TwoBits(bits: seq<bool>, f: nat): (r: nat)
    requires f + 2 <= |bits|
    ensures r < 4
  {
    BitsValueBound(bits[f..f + 2]);
    BitsValue(bits[f..f + 2])
  }

  /** The 32-bit field at bit `f`, unsigned. */
  function WordAt(bits: seq<bool>, f: nat): (r: nat)
    requires f + 32 <= |bits|
    ensures r < TWO32
  {
    BitsValueWord(bits[f..f + 32]);
    BitsValue(bits[f..f + 32])
  }

  class BitReader {
    const bits: seq<bool>
    var pos: nat

    ghost predicate Valid()
      reads this
    {
      |bits| % 8 == 0
    }

    constructor (bytes: seq<bv8>)
      ensures Valid() && bits == BytesToBits(bytes) && pos == 0
    {
      bits := BytesToBits(bytes);
      pos := 0;
    }

    /** `getStreamPosition()`: the byte that holds the next bit. */
    function StreamPosition(): (r: nat)
      reads this
      ensures 8 * r <= pos < 8 * r + 8
    {
      pos / 8
    }

    /** `seek(offset)`: jump to a byte offset, bit offset 0. */
    method Seek(offset: nat)
      modifies this`pos
      ensures pos == 8 * offset && pos % 8 == 0
    {
      pos := 8 * offset;
    }

    /** `readBits(k)`: the next `k` bits as an unsigned number, MSB first. */
    method ReadBits(k: nat) returns (r: Result<nat>)
      modifies this`pos
      ensures pos == (if old(pos) + k <= |bits| then old(pos) + k else old(pos))
      ensures old(pos) + k <= |bits| ==> r == Ok(BitsValue(bits[old(pos)..old(pos) + k]))
      ensures old(pos) + k > |bits| ==> r == Fail(EndOfStream)
      ensures r.Ok? && k <= 32 ==> r.value < TWO32
    {
      if pos + k <= |bits| {
        if k <= 32 { BitsValueFits32(bits[pos..pos + k]); }
        r := Ok(BitsValue(bits[pos..pos + k]));
        pos := pos + k;
      } else {
        r := Fail(EndOfStream);
      }
    }

    /** `readBit()`. */
    method ReadBit() returns (r: Result<nat>)
      modifies this`pos
      ensures pos == (if old(pos) + 1 <= |bits| then old(pos) + 1 else old(pos))
      ensures old(pos) < |bits| ==> r == Ok(if bits[old(pos)] then 1 else 0)
      ensures old(pos) >= |bits| ==> r == Fail(EndOfStream)
    {
      r := ReadBits(1);
      if r.Ok? {
        assert bits[old(pos)..old(pos) + 1] == [bits[old(pos)]];
        assert bits[old(pos)..old(pos) + 1][..0] == [];
      }
    }

    /**
     * `readByte()`: the byte that starts at the next byte boundary, as a
     * signed value.  Every caller reads it on a byte boundary, where this is
     * the byte that holds the next bit.
     */
    method ReadByte() returns (r: Result<int>)
      modifies this`pos
      ensures var start := AlignUp(old(pos));
        if start + 8 <= |bits| then
          r == Ok(SignedByte(ByteAt(bits, start))) && pos == start + 8
        else
          r == Fail(EndOfStream)
    {
      var start := AlignUp(pos);
      if start + 8 <= |bits| {
        r := Ok(SignedByte(ByteAt(bits, start)));
        pos := start + 8;
      } else {
        r := Fail(EndOfStream);
      }
    }

    /** Reads past the next `k` bits, whose value the caller has from elsewhere. */
    method Advance(k: nat) returns (r: Outcome)
      modifies this`pos
      ensures old(pos) + k <= |bits| ==> r == Success && pos == old(pos) + k
      ensures old(pos) + k > |bits| ==> r == Failure(EndOfStream) && pos == old(pos)
    {
      if pos + k <= |bits| {
        pos := pos + k;
        r := Success;
      } else {
        r := Failure(EndOfStream);
      }
    }

    /** `skipBits()`: moves the cursor to the next byte boundary. */
    method SkipBits()
      modifies this`pos
      ensures pos == AlignUp(old(pos))
    {
      pos := AlignUp(pos);
    }
  }

  /** An unsigned field of `k <= 32` bits at bit `f`. */
  function FieldAt(bits: seq<bool>, f: nat, k: nat): (r: nat)
    requires k <= 32 && f + k <= |bits|
    ensures r < Pow2(k)
  {
    BitsValueBound(bits[f..f + k]);
    BitsValue(bits[f..f + k])
  }
}
