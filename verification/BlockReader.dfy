/**
 Decoding a block of a sequential scan with the bit reader and the lookup tables
 (lib/jpegli/decode_scan.cc): the same block, or the same failure, as decoding its bits by the standard.
 */
module BlockReader {
  import opened Arithmetic
  import opened BitStrings
  import opened HuffmanCode
  import opened EntropyBytes
  import opened EntropyStream
  import opened ScanWriter
  import opened BlockSymbols
  import opened BlockDecoding
  import opened BlockRoundTrip
  import opened PredictedBlocks
  import opened HuffmanLookup
  import opened SymbolLookup
  import opened BitReader

  /** The bits from c on, up to bit last. */
  function Ahead(data: seq<Byte>, start: nat, c: nat, last: nat): Bits
    requires c <= last
  {
    Stream(data, start, c, last - c)
  }

  lemma NextSymbol(t: HuffmanTable, data: seq<Byte>, start: nat, c: nat, c2: nat, value: nat, last: nat)
    requires SymbolRead(t, data, start, c, c2, value) && HuffmanCode.Valid(t) && c + 16 <= last
    ensures c <= c2 <= c + 16
    ensures match DecodeSymbol(t, Ahead(data, start, c, last))
      case Got(symbol, rest) => value == symbol < 256 && rest == Ahead(data, start, c2, last)
      case Fail => value >= INVALID_SYMBOL
  {
    assert SymbolReadIn(t, data, start, c, c2, value, last - c);
    assert SymbolReadIn(t, data, start, c, c2, value, 16);
  }

  lemma NextBits(data: seq<Byte>, start: nat, c: nat, n: nat, r: nat, last: nat)
    requires r < Pow2(n) && Low(r, n) == Stream(data, start, c, n) && c + n <= last
    ensures BlockDecoding.ReadBits(Ahead(data, start, c, last), n) == Got(r, Ahead(data, start, c + n, last))
  {
    StreamSlice(data, start, c, last - c, n);
    ValueOfLow(r, n);
  }

  lemma RefinesValid(t: HuffmanTable, lut: Lut)
    requires Refines(t, lut)
    ensures HuffmanCode.Valid(t)
  {
  }

  /** Conversion to int16_t. */
  function Int16(x: int): (y: int)
    ensures FitsInt16(y) && (y == x <==> FitsInt16(x))
  {
    (x + 0x8000) % 0x1_0000 - 0x8000
  }

  /** The DC difference, unless its symbol is invalid. */
  method ReadDcDifference(dcLut: array<Entry>, br: BitReaderState, ghost t: HuffmanTable, ghost last: nat) returns (ok: bool, diff: int)
    requires br.Valid() && dcLut.Length == LUT_SIZE && Refines(t, dcLut[..]) && br.Consumed() + 32 <= last
    modifies br
    ensures br.Valid() && old(br.Consumed()) <= br.Consumed() <= old(br.Consumed()) + 32 && HuffmanCode.Valid(t)
    ensures var bits := Ahead(br.data, br.start, old(br.Consumed()), last);
      && Difference(t, bits) == (if ok then Got(diff, Ahead(br.data, br.start, br.Consumed(), last)) else Fail)
      && last - br.Consumed() <= DifferenceLeft(t, bits)
  {
    hide Refines, Stream, SymbolRead, DecodeSymbol, BlockDecoding.ReadBits, HuffExtend, HuffmanCode.Valid, Pow2, Low, Ahead;
    RefinesValid(t, dcLut[..]);
    ghost var c := br.Consumed();
    AheadLength(br.data, br.start, c, last);
    var s := br.ReadSymbol(dcLut, t);
    ghost var c1 := br.Consumed();
    NextSymbol(t, br.data, br.start, c, c1, s, last);
    AheadLength(br.data, br.start, c1, last);
    if s >= DC_ALPHABET_SIZE {
      return false, 0;
    }
    diff := 0;
    if s > 0 {
      var bits := br.ReadBits(s);
      NextBits(br.data, br.start, c1, s, bits, last);
      diff := HuffExtend(bits, s);
    }
    ok := true;
  }

  lemma AheadLength(data: seq<Byte>, start: nat, c: nat, last: nat)
    requires c <= last
    ensures |Ahead(data, start, c, last)| == last - c
  {
  }

  /** The AC coefficients of a block whose DC difference has been read. */
  method ReadAcCoefficients(acLut: array<Entry>, br: BitReaderState, coeffs: array<int>, ghost diff: int, ghost t: HuffmanTable, ghost last: nat)
      returns (ok: bool)
    requires br.Valid() && acLut.Length == LUT_SIZE && Refines(t, acLut[..]) && coeffs.Length == 64
    requires br.Consumed() + 32 * 63 <= last
    modifies br, coeffs
    ensures br.Valid() && old(br.Consumed()) <= br.Consumed() <= old(br.Consumed()) + 32 * 63 && coeffs[0] == old(coeffs[0])
    ensures HuffmanCode.Valid(t)
    ensures var bits := Ahead(br.data, br.start, old(br.Consumed()), last);
      && DecodeAc(t, 1, WithDc(old(coeffs[..]), diff), bits)
         == (if ok then Got(WithDc(coeffs[..], diff), Ahead(br.data, br.start, br.Consumed(), last)) else Fail)
      && last - br.Consumed() <= AcLeft(t, 1, bits)
  {
    hide Refines, Stream, SymbolRead, DecodeSymbol, DecodeAc, AcLeft, BlockDecoding.ReadBits, HuffExtend, HuffmanCode.Valid;
    hide Pow2, Low, Ahead;
    RefinesValid(t, acLut[..]);
    ghost var c0, first, bits := br.Consumed(), WithDc(coeffs[..], diff), Ahead(br.data, br.start, br.Consumed(), last);
    var k := 1;
    while k <= 63
      invariant 1 <= k && br.Valid() && c0 <= br.Consumed() && coeffs[0] == old(coeffs[0])
      invariant if k <= 64 then br.Consumed() + 32 * (64 - k) <= c0 + 32 * 63 else br.Consumed() <= c0 + 32 * 63
      invariant DecodeAc(t, 1, first, bits) == DecodeAc(t, k, WithDc(coeffs[..], diff), Ahead(br.data, br.start, br.Consumed(), last))
      invariant AcLeft(t, 1, bits) == AcLeft(t, k, Ahead(br.data, br.start, br.Consumed(), last))
      decreases 64 - k
    {
      ghost var c, before := br.Consumed(), WithDc(coeffs[..], diff);
      ghost var ahead := Ahead(br.data, br.start, c, last);
      AheadLength(br.data, br.start, c, last);
      var sr := br.ReadSymbol(acLut, t);
      ghost var c1 := br.Consumed();
      NextSymbol(t, br.data, br.start, c, c1, sr, last);
      if sr >= INVALID_SYMBOL {
        AcFails(t, k, before, ahead);
        AcLeftEnds(t, k, ahead);
        return false;
      }
      ghost var ahead1 := Ahead(br.data, br.start, c1, last);
      AheadLength(br.data, br.start, c1, last);
      AcLeftStep(t, k, ahead, sr, ahead1);
      var r, s := sr / 16, sr % 16;
      if s > 0 {
        if k + r > 63 || s >= DC_ALPHABET_SIZE {
          AcStep(t, k, before, ahead, sr, ahead1, 0, []);
          return false;
        }
        var x := br.ReadBits(s);
        NextBits(br.data, br.start, c1, s, x, last);
        AheadFrom(br.data, br.start, c1, s, last);
        AcStep(t, k, before, ahead, sr, ahead1, x, Ahead(br.data, br.start, br.Consumed(), last));
        coeffs[k + r] := HuffExtend(x, s);
        assert WithDc(coeffs[..], diff) == before[k + r := HuffExtend(x, s)];
        k := k + r + 1;
      } else {
        AcStep(t, k, before, ahead, sr, ahead1, 0, []);
        if r == 15 {
          k := k + 16;
        } else {
          return r == 0;
        }
      }
    }
    AcEnds(t, k, WithDc(coeffs[..], diff), Ahead(br.data, br.start, br.Consumed(), last));
    AcLeftEnds(t, k, Ahead(br.data, br.start, br.Consumed(), last));
    AheadLength(br.data, br.start, br.Consumed(), last);
    return true;
  }

  lemma AheadFrom(data: seq<Byte>, start: nat, c: nat, s: nat, last: nat)
    requires c + s <= last
    ensures |Ahead(data, start, c, last)| == last - c && Ahead(data, start, c, last)[s..] == Ahead(data, start, c + s, last)
  {
    StreamSlice(data, start, c, last - c, s);
  }

  /** Decodes one block; coeffs is in zigzag order. The reader has read at least up to the end of the block, or
      to the place where it is rejected. */
  method DecodeDctBlock(dcLut: array<Entry>, acLut: array<Entry>, br: BitReaderState, lastDc: int, coeffs: array<int>,
                        ghost kind: BlockKind, ghost last: nat)
      returns (ok: bool, newLastDc: int)
    requires br.Valid() && dcLut.Length == acLut.Length == LUT_SIZE && Refines(kind.dc, dcLut[..]) && Refines(kind.ac, acLut[..])
    requires coeffs.Length == 64 && (forall i :: 0 <= i < 64 ==> coeffs[i] == 0)
    requires br.Consumed() + MANY <= last
    modifies br, coeffs
    ensures br.Valid() && old(br.Consumed()) <= br.Consumed() <= old(br.Consumed()) + MANY
    ensures HuffmanCode.Valid(kind.dc) && HuffmanCode.Valid(kind.ac)
    ensures var bits := Ahead(br.data, br.start, old(br.Consumed()), last);
      && PredictedBlock(kind, lastDc, bits) == (if ok then Got(WithDc(coeffs[..], coeffs[0]), Ahead(br.data, br.start, br.Consumed(), last)) else Fail)
      && last - br.Consumed() <= BlockLeft(kind, lastDc, bits)
    ensures ok ==> newLastDc == coeffs[0]
  {
    hide Refines, Stream, SymbolRead, DecodeAc, AcLeft, Difference, DifferenceLeft, HuffmanCode.Valid, Pow2, Low, Ahead, Int16;
    RefinesValid(kind.dc, dcLut[..]);
    RefinesValid(kind.ac, acLut[..]);
    var diff;
    ok, diff := ReadDcDifference(dcLut, br, kind.dc, last);
    if !ok {
      return false, lastDc;
    }
    var coeff := diff + lastDc;
    coeffs[0] := Int16(coeff);
    if coeff != coeffs[0] {
      return false, lastDc;
    }
    newLastDc := coeff;
    assert WithDc(coeffs[..], diff) == ZeroBlock()[0 := diff];
    ok := ReadAcCoefficients(acLut, br, coeffs, diff, kind.ac, last);
    assert WithDc(WithDc(coeffs[..], diff), coeff) == coeffs[..] == WithDc(coeffs[..], coeffs[0]);
  }

  /** A block that was written at bit c is read back, if its DC coefficient fits, and the rest follows. */
  lemma WrittenBlockIsRead(b: Block, kind: BlockKind, dc: CodeTable, ac: CodeTable, data: seq<Byte>, start: nat, c: nat, last: nat, lastDc: int)
    requires TableOf(kind.dc, dc) && TableOf(kind.ac, ac) && Codable(b, kind.dc, kind.ac) && Decodable(b)
    requires var bits := BitsOfBlock(b, kind.dc, kind.ac, dc, ac); c + |bits| <= last && Stream(data, start, c, |bits|) == bits
    ensures PredictedBlock(kind, lastDc, Ahead(data, start, c, last))
         == if FitsInt16(b[0] + lastDc)
            then Got(WithDc(b, b[0] + lastDc), Ahead(data, start, c + |BitsOfBlock(b, kind.dc, kind.ac, dc, ac)|, last)) else Fail
  {
    hide *;
    TablesAreValid(kind.dc, dc);
    TablesAreValid(kind.ac, ac);
    var bits := BitsOfBlock(b, kind.dc, kind.ac, dc, ac);
    AheadSplit(data, start, c, |bits|, last);
    BlockRoundTripsIff(b, kind.dc, kind.ac, dc, ac, Ahead(data, start, c + |bits|, last));
    PredictedIs(kind, lastDc, Ahead(data, start, c, last));
  }

  lemma AheadSplit(data: seq<Byte>, start: nat, c: nat, n: nat, last: nat)
    requires c + n <= last
    ensures Ahead(data, start, c, last) == Stream(data, start, c, n) + Ahead(data, start, c + n, last)
  {
    StreamConcat(data, start, c, n, last - c - n);
  }
}
