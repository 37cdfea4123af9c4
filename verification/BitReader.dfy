/**
 The bit reader of the decoder and its Huffman symbol decoding (lib/jpegli/decode_scan.cc).
 */
module BitReader {
  import opened Arithmetic
  import opened BitStrings
  import opened HuffmanCode
  import opened EntropyBytes
  import opened EntropyStream
  import opened BlockDecoding
  import opened HuffmanLookup
  import opened SymbolLookup

  /** One more byte extends the window of pending bits. */
  lemma WiderWindow(data: seq<Byte>, start: nat, consumed: nat, val: uint64, bitsLeft: nat, k: nat)
    requires bitsLeft <= 56 && consumed + bitsLeft == 8 * k && Low(val, bitsLeft) == Stream(data, start, consumed, bitsLeft)
    ensures ByteAt(data, start, k) < Pow2(8)
    ensures Low(Or(Shl(val, 8), ByteAt(data, start, k), 64), bitsLeft + 8) == Stream(data, start, consumed, bitsLeft + 8)
  {
    Pow2Of8();
    var c := ByteAt(data, start, k);
    hide *;
    LowOfShiftedOr(val, bitsLeft, c, 8);
    StreamOfByte(data, start, k);
    StreamConcat(data, start, consumed, bitsLeft, 8);
  }

  /** The n lowest bits of x, as a number. */
  function Lowest(x: nat, n: nat): nat {
    if n == 0 then 0 else 2 * Lowest(x / 2, n - 1) + x % 2
  }

  lemma {:induction false} MaskIsLowest(x: nat, n: nat, w: nat)
    requires n <= w
    ensures And(x, Pow2(n) - 1, w) == Lowest(x, n)
  {
    if n > 0 {
      MaskIsLowest(x / 2, n - 1, w - 1);
      AndStep(x, Pow2(n - 1) - 1, w);
    } else {
      AndWithZero(x, w);
    }
  }

  lemma AndStep(x: nat, m: nat, w: nat)
    requires w > 0
    ensures And(x, 2 * m + 1, w) == 2 * And(x / 2, m, w - 1) + x % 2
  {
  }

  lemma {:induction false} LowestIsRest(x: nat, n: nat)
    ensures Lowest(x, n) == x % Pow2(n)
  {
    if n > 0 {
      var p := Pow2(n - 1);
      LowestIsRest(x / 2, n - 1);
      DivTwice(x, p);
      HalfAndRest(x % (2 * p));
    }
  }

  lemma HalfAndRest(y: int)
    ensures y == 2 * (y / 2) + y % 2
  {
  }

  lemma AndMask(x: nat, n: nat, w: nat)
    requires n <= w
    ensures And(x, Pow2(n) - 1, w) == x % Pow2(n)
  {
    hide *;
    MaskIsLowest(x, n, w);
    LowestIsRest(x, n);
  }

  /** Shifting and masking the window takes its first n bits, and leaves the others. */
  lemma Taken(data: seq<Byte>, start: nat, consumed: nat, val: uint64, bitsLeft: nat, n: nat)
    requires n <= bitsLeft <= 64 && Low(val, bitsLeft) == Stream(data, start, consumed, bitsLeft)
    ensures var r := And(Shr(val, bitsLeft - n), Pow2(n) - 1, 64);
      r < Pow2(n) && Low(r, n) == Stream(data, start, consumed, n)
    ensures Low(val, bitsLeft - n) == Stream(data, start, consumed + n, bitsLeft - n)
  {
    var s := bitsLeft - n;
    ShrAsQuotient(val, s);
    LowSplit(val, n, s);
    AndMask(val / Pow2(s), n, 64);
    LowOfMod(val / Pow2(s), n, n);
    StreamSlice(data, start, consumed, bitsLeft, n);
    hide *;
    assert Low(val, bitsLeft)[..n] == Low(val / Pow2(s), n) && Low(val, bitsLeft)[n..] == Low(val, s);
  }

  // ---------------------------------------------------------------- one symbol

  /** The next 16 bits as a number. */
  function Window(data: seq<Byte>, start: nat, c: nat): (w: nat)
    ensures w < 0x1_0000
  {
    Pow2Of16();
    ValueOf(Stream(data, start, c, 16))
  }

  /** Between bit c and bit c2 there is the code of the symbol `value`, whatever number of bits is looked at. */
  ghost predicate SymbolReadIn(t: HuffmanTable, data: seq<Byte>, start: nat, c: nat, c2: nat, value: nat, n: nat) {
    && HuffmanCode.Valid(t) && c <= c2 <= c + n
    && match DecodeSymbol(t, Stream(data, start, c, n))
       case Got(symbol, rest) => value == symbol && rest == Stream(data, start, c2, c + n - c2)
       case Fail => value >= INVALID_SYMBOL
  }

  ghost predicate SymbolRead(t: HuffmanTable, data: seq<Byte>, start: nat, c: nat, c2: nat, value: nat) {
    forall n: nat :: n >= 16 ==> SymbolReadIn(t, data, start, c, c2, value, n)
  }

  /** The lookup for the window c .. c + 15, in terms of the stream. */
  lemma AgreesOnStream(t: HuffmanTable, lut: Lut, w: nat, rest: Bits, data: seq<Byte>, start: nat, c: nat, n: nat)
    requires HuffmanCode.Valid(t) && |lut| == LUT_SIZE && w < 0x1_0000 && Agrees(t, lut, w, rest)
    requires n >= 16 && Low(w, 16) + rest == Stream(data, start, c, n)
    ensures var (bits, value) := Lookup(lut, w);
      SymbolReadIn(t, data, start, c, c + bits, value, n) && bits <= 16 && Covered(lut, w, 256, LUT_SIZE)
  {
    hide Lookup, Covered, Stream, DecodeSymbol, HuffmanCode.Valid, Low;
    StreamSlice(data, start, c, n, Lookup(lut, w).0);
  }

  lemma LookupReadsIn(t: HuffmanTable, lut: Lut, data: seq<Byte>, start: nat, c: nat, n: nat)
    requires Refines(t, lut) && n >= 16
    ensures var w := Window(data, start, c); var (bits, value) := Lookup(lut, w);
      SymbolReadIn(t, data, start, c, c + bits, value, n) && bits <= 16 && Covered(lut, w, 256, LUT_SIZE)
  {
    hide Lookup, Covered, Stream, DecodeSymbol, HuffmanCode.Valid, Low, Agrees, SymbolReadIn;
    var w, rest := Window(data, start, c), Stream(data, start, c + 16, n - 16);
    LowOfValue(Stream(data, start, c, 16));
    StreamConcat(data, start, c, 16, n - 16);
    assert Agrees(t, lut, w, rest);
    AgreesOnStream(t, lut, w, rest, data, start, c, n);
  }

  lemma LookupReads(t: HuffmanTable, lut: Lut, data: seq<Byte>, start: nat, c: nat)
    requires Refines(t, lut)
    ensures var w := Window(data, start, c); var (bits, value) := Lookup(lut, w);
      SymbolRead(t, data, start, c, c + bits, value) && bits <= 16 && Covered(lut, w, 256, LUT_SIZE)
  {
    hide Lookup, Covered, SymbolReadIn, Window, Agrees;
    LookupReadsIn(t, lut, data, start, c, 16);
    var (bits, value) := Lookup(lut, Window(data, start, c));
    var c2 := c + bits;
    forall n: nat | n >= 16
      ensures SymbolReadIn(t, data, start, c, c2, value, n)
    {
      LookupReadsIn(t, lut, data, start, c, n);
    }
  }

  lemma KeyOfWindow(data: seq<Byte>, start: nat, c: nat, key: nat)
    requires key < Pow2(8) && Low(key, 8) == Stream(data, start, c, 8)
    ensures key == Window(data, start, c) / 256
  {
    var w := Window(data, start, c);
    LowOfValue(Stream(data, start, c, 16));
    StreamSlice(data, start, c, 16, 8);
    Pow2Of8();
    LowSplit(w, 8, 8);
    hide Low, Pow2, Stream;
    assert Low(w, 16)[..8] == Low(w / 256, 8);
    LowInjective(key, w / 256, 8);
  }

  lemma SecondOfWindow(data: seq<Byte>, start: nat, c: nat, n: nat, v: nat)
    requires n <= 8 && v < Pow2(n) && Low(v, n) == Stream(data, start, c + 8, n)
    ensures v == Window(data, start, c) % 256 / Pow2(8 - n)
  {
    var w := Window(data, start, c);
    var x := w % 256;
    LowOfValue(Stream(data, start, c, 16));
    StreamSlice(data, start, c, 16, 8);
    StreamSlice(data, start, c + 8, 8, n);
    Pow2Of8();
    LowSplit(w, 8, 8);
    LowOfMod(w, 8, 8);
    LowSplit(x, n, 8 - n);
    Pow2Sum(n, 8 - n);
    QuotientBound(x, Pow2(8 - n), Pow2(n));
    hide *;
    assert Low(w, 16)[8..] == Low(x, 8);
    assert Low(x, 8)[..n] == Low(x / Pow2(8 - n), n);
    LowInjective(v, x / Pow2(8 - n), n);
  }

  // ---------------------------------------------------------------- the end of the stream

  /** What the reader reports for a position in the data and the bits read: whether that is inside the segment,
      and where to go on. After an FF, with less than a byte read, this is one position too far back. */
  ghost predicate Finished(data: seq<Byte>, start: nat, fetched: nat, c: nat, ok: bool, newPos: nat) {
    if AfterFF(data, start) && c < 8 && fetched > 0 then ok && newPos == start - 1
    else
      && (ok <==> c <= 8 * |Bytes(data, start)| && PosAt(data, start, c / 8) <= |data|)
      && newPos == if ok then PosAt(data, start, c / 8) else Min(EndOf(data, start), |data|)
  }

  /** Comparing the position with the known marker decides it. */
  lemma Outcome(data: seq<Byte>, start: nat, fetched: nat, c: nat, pos: nat)
    requires start <= |data| && c <= 8 * fetched && pos == Resting(data, start, c / 8, fetched)
    ensures var marker := KnownMarker(data, start, fetched);
      if pos > marker || (pos == marker && c % 8 > 0) then Finished(data, start, fetched, c, false, marker)
      else Finished(data, start, fetched, c, true, pos)
  {
    var k, n := c / 8, |Bytes(data, start)|;
    AtEnd(data, start);
    if k == 0 && fetched > 0 && AfterFF(data, start) {
      GivenBackTooFar(data, start, fetched);
    } else if k < n {
      PosBelowEnd(data, start, k);
      Inside(data, start, k);
    } else {
      PastEnd(data, start, k);
    }
  }

  class BitReaderState {
    const data: seq<Byte>
    const start: nat
    var pos: nat
    var val: uint64
    var bitsLeft: nat
    var nextMarkerPos: nat
    ghost var fetched: nat

    /** The bits that have been read. */
    ghost function Consumed(): nat
      reads this
      requires bitsLeft <= 8 * fetched
    {
      8 * fetched - bitsLeft
    }

    ghost predicate Positioned()
      reads this`pos, this`nextMarkerPos, this`fetched
    {
      start <= |data| && pos == PosAt(data, start, fetched) && nextMarkerPos == KnownMarker(data, start, fetched)
    }

    /** The reader has taken `fetched` bytes of the stream, and holds the last bitsLeft bits of them. */
    ghost predicate Valid()
      reads this
    {
      && Positioned() && bitsLeft <= 64 && bitsLeft <= 8 * fetched
      && Low(val, bitsLeft) == Stream(data, start, Consumed(), bitsLeft)
    }

    constructor (data: seq<Byte>, start: nat)
      requires start <= |data|
      ensures Valid() && this.data == data && this.start == start && Consumed() == 0
    {
      this.data, this.start := data, start;
      pos, val, bitsLeft, nextMarkerPos := start, 0, 0, |data|;
      fetched := 0;
      new;
      FillBitWindow();
    }

    method GetNextByte() returns (c: Byte)
      requires Positioned()
      modifies this`pos, this`nextMarkerPos, this`fetched
      ensures c == ByteAt(data, start, old(fetched)) && fetched == old(fetched) + 1 && Positioned()
    {
      NextByte(data, start, fetched);
      hide PosAt, Bytes, EndOf, ByteAt;
      if pos >= nextMarkerPos {
        pos := pos + 1;
        fetched := fetched + 1;
        return 0;
      }
      c := data[pos];
      pos := pos + 1;
      if c == 0xFF {
        var escape := if pos < |data| then data[pos] else 0;
        if escape == 0 {
          pos := pos + 1;
        } else {
          nextMarkerPos := pos - 1;
        }
      }
      fetched := fetched + 1;
    }

    method FillBitWindow()
      requires Valid()
      modifies this
      ensures Valid() && Consumed() == old(Consumed()) && bitsLeft > 16
    {
      if bitsLeft <= 16 {
        while bitsLeft <= 56
          invariant Valid() && Consumed() == old(Consumed())
          decreases 64 - bitsLeft
        {
          TakeByte();
        }
      }
    }

    method TakeByte()
      requires Valid() && bitsLeft <= 56
      modifies this
      ensures Valid() && Consumed() == old(Consumed()) && bitsLeft == old(bitsLeft) + 8
    {
      hide Low, Or, Shl, Stream, ByteAt, Positioned;
      Pow2Of64();
      val := Shl(val, 8);
      var c := GetNextByte();
      WiderWindow(data, start, Consumed() - 8, old(val), bitsLeft, fetched - 1);
      val := Or(val, c, 64);
      bitsLeft := bitsLeft + 8;
    }

    method ReadBits(nbits: nat) returns (r: nat)
      requires Valid() && 1 <= nbits <= 16
      modifies this
      ensures Valid() && Consumed() == old(Consumed()) + nbits
      ensures r < Pow2(nbits) && Low(r, nbits) == Stream(data, start, old(Consumed()), nbits)
    {
      FillBitWindow();
      r := And(Shr(val, bitsLeft - nbits), Pow2(nbits) - 1, 64);
      Taken(data, start, Consumed(), val, bitsLeft, nbits);
      bitsLeft := bitsLeft - nbits;
    }

    /** The next symbol, for a lookup table that refines the Huffman table t. */
    method ReadSymbol(lut: array<Entry>, ghost t: HuffmanTable) returns (value: nat)
      requires Valid() && lut.Length == LUT_SIZE && Refines(t, lut[..])
      modifies this
      ensures Valid() && Consumed() >= old(Consumed())
      ensures SymbolRead(t, data, start, old(Consumed()), Consumed(), value)
    {
      hide Refines, SymbolRead, Positioned, Low, And, Shr, Pow2, Stream, Window;
      FillBitWindow();
      ghost var c, w := Consumed(), Window(data, start, Consumed());
      LookupReads(t, lut[..], data, start, c);
      Taken(data, start, c, val, bitsLeft, 8);
      var key := And(Shr(val, bitsLeft - 8), Pow2(8) - 1, 64);
      KeyOfWindow(data, start, c, key);
      var e := lut[key];
      if e.bits > 8 {
        var nbits := e.bits - 8;
        bitsLeft := bitsLeft - 8;
        Taken(data, start, c + 8, val, bitsLeft, nbits);
        var v := And(Shr(val, bitsLeft - nbits), Pow2(nbits) - 1, 64);
        SecondOfWindow(data, start, c, nbits, v);
        e := lut[key + e.value + v];
      }
      Taken(data, start, Consumed(), val, bitsLeft, e.bits);
      bitsLeft := bitsLeft - e.bits;
      return e.value;
    }

    /** The position and the bit after the last bit read, unless that is past the end of the segment. */
    method FinishStream() returns (ok: bool, newPos: nat, bitPos: nat)
      requires Valid() && 0 < |data|
      modifies this`pos
      ensures bitPos == old(Consumed()) % 8 && Finished(data, start, fetched, old(Consumed()), ok, newPos)
    {
      hide Low, Stream, PosAt, KnownMarker, Resting, Finished;
      bitPos := (8 - bitsLeft % 8) % 8;
      var unused: nat := (bitsLeft + 7) / 8;
      ghost var given: nat := 0;
      ghost var consumed, n := Consumed(), unused;
      assert consumed / 8 == fetched - n && consumed % 8 == bitPos;
      StartsResting();
      while unused > 0
        invariant unused + given == n <= fetched && pos == Resting(data, start, fetched - given, fetched)
      {
        unused := unused - 1;
        GivenBackRests(data, start, fetched - given - 1, fetched);
        ghost var was := pos;
        pos := pos - 1;
        if ((pos == |data| && pos == nextMarkerPos) || (0 < pos < nextMarkerPos && data[pos] == 0)) && data[pos - 1] == 0xFF {
          pos := pos - 1;
        }
        assert pos == GivenBack(data, nextMarkerPos, was);
        given := given + 1;
      }
      Outcome(data, start, fetched, consumed, pos);
      if pos >= nextMarkerPos {
        if pos > nextMarkerPos || bitPos > 0 {
          return false, nextMarkerPos, bitPos;
        }
      }
      return true, pos, bitPos;
    }

    lemma StartsResting()
      requires Positioned()
      ensures pos == Resting(data, start, fetched, fetched) && nextMarkerPos <= |data|
    {
      AtEnd(data, start);
    }
  }
}
