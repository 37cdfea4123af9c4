/** Decoding a block of the first pass of a progressive AC scan with the bit reader (DecodeDCTBlock in
    lib/jpegli/decode_scan.cc), and the round trip over the byte stream. */
module ProgressiveReader {
  import opened Arithmetic
  import opened BitStrings
  import opened HuffmanCode
  import opened EntropyBytes
  import opened EntropyStream
  import opened ScanWriter
  import opened BlockSymbols
  import opened BlockDecoding
  import opened BlockTokens
  import opened BlockReader
  import opened SuspendedReading
  import opened HuffmanLookup
  import opened SymbolLookup
  import opened BitReader
  import opened ProgressiveBlocks

  lemma BandFails(ac: HuffmanTable, band: Band, k: nat, coeffs: Block, eobRun: int, bits: Bits)
    requires Valid(ac) && band.Valid() && k <= band.last
    requires match DecodeSymbol(ac, bits)
             case Fail => true
             case Got(sr, _) => sr % 16 > 0 && (k + sr / 16 > band.last || sr % 16 + band.shift >= DC_ALPHABET_SIZE)
    ensures DecodeBand(ac, band, k, coeffs, eobRun, bits) == Fail
  {
    hide DecodeSymbol;
  }

  lemma BandOver(ac: HuffmanTable, band: Band, k: nat, coeffs: Block, eobRun: int, bits: Bits)
    requires Valid(ac) && band.Valid() && k > band.last
    ensures DecodeBand(ac, band, k, coeffs, eobRun, bits) == Got(BandState(coeffs, eobRun), bits)
  {
  }

  /** One block. The run of ends of bands is the one that is known when the block begins. */
  method DecodeBandBlock(acLut: array<Entry>, br: BitReaderState, coeffs: array<int>, band: Band, eobRun0: int, ghost t: HuffmanTable, ghost last: nat)
      returns (ok: bool, eobRun: int)
    requires br.Valid() && acLut.Length == LUT_SIZE && Refines(t, acLut[..]) && coeffs.Length == 64 && band.Valid()
    requires br.Consumed() + 32 * 64 <= last
    modifies br, coeffs
    ensures br.Valid() && old(br.Consumed()) <= br.Consumed() <= old(br.Consumed()) + 32 * 64 && HuffmanCode.Valid(t)
    ensures DecodeInBand(t, band, old(coeffs[..]), eobRun0, Ahead(br.data, br.start, old(br.Consumed()), last))
         == if ok then Got(BandState(coeffs[..], eobRun), Ahead(br.data, br.start, br.Consumed(), last)) else Fail
  {
    hide Refines, Stream, SymbolRead, DecodeSymbol, DecodeBand, BlockDecoding.ReadBits, HuffExtend, HuffmanCode.Valid, Pow2, Low, Ahead;
    RefinesValid(t, acLut[..]);
    eobRun := eobRun0;
    if eobRun > 0 {
      return true, eobRun - 1;
    }
    ghost var c0, first, bits := br.Consumed(), coeffs[..], Ahead(br.data, br.start, br.Consumed(), last);
    var k := band.first;
    while k <= band.last
      invariant 1 <= k && br.Valid() && c0 <= br.Consumed()
      invariant if k <= 64 then br.Consumed() + 32 * (64 - k) <= c0 + 32 * 63 else br.Consumed() <= c0 + 32 * 63
      invariant DecodeBand(t, band, band.first, first, eobRun0, bits)
             == DecodeBand(t, band, k, coeffs[..], eobRun0, Ahead(br.data, br.start, br.Consumed(), last))
      decreases 64 - k
    {
      ghost var c, before := br.Consumed(), coeffs[..];
      ghost var ahead := Ahead(br.data, br.start, c, last);
      var sr := br.ReadSymbol(acLut, t);
      ghost var c1 := br.Consumed();
      NextSymbol(t, br.data, br.start, c, c1, sr, last);
      if sr >= INVALID_SYMBOL {
        BandFails(t, band, k, before, eobRun0, ahead);
        return false, eobRun;
      }
      ghost var ahead1 := Ahead(br.data, br.start, c1, last);
      var r, s := sr / 16, sr % 16;
      if s > 0 {
        if k + r > band.last || s + band.shift >= DC_ALPHABET_SIZE {
          BandFails(t, band, k, before, eobRun0, ahead);
          return false, eobRun;
        }
        var x := br.ReadBits(s);
        NextBits(br.data, br.start, c1, s, x, last);
        BandStep(t, band, k, before, eobRun0, ahead, sr, ahead1, x, Ahead(br.data, br.start, br.Consumed(), last));
        coeffs[k + r] := HuffExtend(x, s) * Pow2(band.shift);
        assert coeffs[..] == before[k + r := HuffExtend(x, s) * Pow2(band.shift)];
        k := k + r + 1;
      } else if r == 15 {
        NoBitsAhead(br.data, br.start, c1, last);
        BandStep(t, band, k, before, eobRun0, ahead, sr, ahead1, 0, ahead1);
        k := k + 16;
      } else {
        eobRun := Pow2(r);
        var x := 0;
        if r > 0 {
          x := br.ReadBits(r);
          NextBits(br.data, br.start, c1, r, x, last);
        } else {
          NoBitsAhead(br.data, br.start, c1, last);
        }
        BandStep(t, band, k, before, eobRun0, ahead, sr, ahead1, x, Ahead(br.data, br.start, br.Consumed(), last));
        eobRun := eobRun + x;
        return true, eobRun - 1;
      }
    }
    BandOver(t, band, k, coeffs[..], eobRun0, Ahead(br.data, br.start, br.Consumed(), last));
    return true, eobRun - 1;
  }

  lemma NoBitsAhead(data: seq<Byte>, start: nat, c: nat, last: nat)
    requires c <= last
    ensures BlockDecoding.ReadBits(Ahead(data, start, c, last), 0) == Got(0, Ahead(data, start, c, last))
  {
    var bits := Ahead(data, start, c, last);
    assert bits[..0] == [] && bits[0..] == bits;
  }

  /** The first i blocks have been decoded; the others are those of the bits that follow. */
  ghost predicate DecodedTo(t: HuffmanTable, band: Band, coeffs: seq<Block>, bits: Bits, i: nat, blocks: seq<Block>, eobRun: int, ahead: Bits)
    requires HuffmanCode.Valid(t) && band.Valid() && i <= |coeffs|
  {
    DecodeBlocks(t, band, coeffs, -1, bits) ==
    match DecodeBlocks(t, band, coeffs[i..], eobRun, ahead)
    case Fail => Fail
    case Got(d, rest) => Got((blocks + d.0, d.1), rest)
  }

  lemma NoneDecoded(t: HuffmanTable, band: Band, coeffs: seq<Block>, bits: Bits)
    requires HuffmanCode.Valid(t) && band.Valid()
    ensures DecodedTo(t, band, coeffs, bits, 0, [], -1, bits)
  {
    hide DecodeBlocks;
    assert coeffs[0..] == coeffs;
    match DecodeBlocks(t, band, coeffs, -1, bits)
    case Fail =>
    case Got(d, rest) => assert [] + d.0 == d.0 && d == (d.0, d.1);
  }

  lemma OneDecoded(t: HuffmanTable, band: Band, coeffs: seq<Block>, bits: Bits, i: nat, blocks: seq<Block>, eobRun: int, ahead: Bits,
                   state: BandState, next: Bits)
    requires HuffmanCode.Valid(t) && band.Valid() && i < |coeffs| && DecodedTo(t, band, coeffs, bits, i, blocks, eobRun, ahead)
    requires DecodeInBand(t, band, coeffs[i], eobRun, ahead) == Got(state, next)
    ensures DecodedTo(t, band, coeffs, bits, i + 1, blocks + [state.coeffs], state.eobRun, next)
  {
    hide DecodeInBand, HuffmanCode.Valid;
    assert coeffs[i..][0] == coeffs[i] && coeffs[i..][1..] == coeffs[i + 1..];
    match DecodeBlocks(t, band, coeffs[i + 1..], state.eobRun, next)
    case Fail =>
    case Got(d, rest) => assert blocks + ([state.coeffs] + d.0) == blocks + [state.coeffs] + d.0;
  }

  lemma NotDecoded(t: HuffmanTable, band: Band, coeffs: seq<Block>, bits: Bits, i: nat, blocks: seq<Block>, eobRun: int, ahead: Bits)
    requires HuffmanCode.Valid(t) && band.Valid() && i < |coeffs| && DecodedTo(t, band, coeffs, bits, i, blocks, eobRun, ahead)
    requires DecodeInBand(t, band, coeffs[i], eobRun, ahead) == Fail
    ensures DecodeBlocks(t, band, coeffs, -1, bits) == Fail
  {
    hide DecodeInBand, HuffmanCode.Valid;
    assert coeffs[i..][0] == coeffs[i];
  }

  lemma AllDecoded(t: HuffmanTable, band: Band, coeffs: seq<Block>, bits: Bits, blocks: seq<Block>, eobRun: int, ahead: Bits)
    requires HuffmanCode.Valid(t) && band.Valid() && DecodedTo(t, band, coeffs, bits, |coeffs|, blocks, eobRun, ahead)
    ensures DecodeBlocks(t, band, coeffs, -1, bits) == Got((blocks, eobRun), ahead)
  {
    assert coeffs[|coeffs|..] == [] && blocks + [] == blocks;
  }

  /** The blocks of a restart interval; each is one MCU of the scan. */
  method DecodeBandBlocks(acLut: array<Entry>, br: BitReaderState, coeffs: seq<Block>, band: Band, ghost t: HuffmanTable, ghost last: nat)
      returns (ok: bool, blocks: seq<Block>, eobRun: int)
    requires br.Valid() && acLut.Length == LUT_SIZE && Refines(t, acLut[..]) && band.Valid()
    requires br.Consumed() + 2048 * |coeffs| <= last
    modifies br
    ensures br.Valid() && old(br.Consumed()) <= br.Consumed() <= last && HuffmanCode.Valid(t)
    ensures DecodeBlocks(t, band, coeffs, -1, Ahead(br.data, br.start, old(br.Consumed()), last))
         == if ok then Got((blocks, eobRun), Ahead(br.data, br.start, br.Consumed(), last)) else Fail
  {
    hide Refines, Ahead, DecodeInBand, DecodeBlocks, DecodedTo, HuffmanCode.Valid;
    RefinesValid(t, acLut[..]);
    ghost var c0, bits := br.Consumed(), Ahead(br.data, br.start, br.Consumed(), last);
    blocks, eobRun := [], -1;
    NoneDecoded(t, band, coeffs, bits);
    for i := 0 to |coeffs|
      invariant br.Valid() && c0 <= br.Consumed() && br.Consumed() + 2048 * (|coeffs| - i) <= last
      invariant Refines(t, acLut[..])
      invariant DecodedTo(t, band, coeffs, bits, i, blocks, eobRun, Ahead(br.data, br.start, br.Consumed(), last))
    {
      var block := new int[64](j requires 0 <= j < 64 => coeffs[i][j]);
      assert block[..] == coeffs[i];
      ghost var before, ahead := eobRun, Ahead(br.data, br.start, br.Consumed(), last);
      ok, eobRun := DecodeBandBlock(acLut, br, block, band, eobRun, t, last);
      if !ok {
        NotDecoded(t, band, coeffs, bits, i, blocks, before, ahead);
        return;
      }
      OneDecoded(t, band, coeffs, bits, i, blocks, before, ahead, BandState(block[..], eobRun), Ahead(br.data, br.start, br.Consumed(), last));
      blocks := blocks + [block[..]];
    }
    AllDecoded(t, band, coeffs, bits, blocks, eobRun, Ahead(br.data, br.start, br.Consumed(), last));
    ok := true;
  }

  /** The round trip of an interval: from the segment that the encoder has written for it, the blocks come back without
      their lowest bits, and no run of ends of bands is too long. */
  method DecodeWrittenInterval(acLut: array<Entry>, data: seq<Byte>, start: nat, coeffs: seq<Block>, band: Band,
                               ghost coding: Coding, ghost context: nat, ghost t: HuffmanTable, ghost c: CodeTable,
                               ghost blocks: seq<Block>, ghost after: seq<Byte>)
      returns (ok: bool, decoded: seq<Block>, eobRun: int, ghost read: nat)
    requires acLut.Length == LUT_SIZE && Refines(t, acLut[..]) && band.Valid() && HasTable(coding, context, c) && TableOf(t, c)
    requires |coeffs| == |blocks| && AllNarrow(blocks) && forall i :: 0 <= i < |blocks| ==> SmallBand(blocks[i], band, band.first)
    requires HuffmanCode.Valid(t) && InTable(t, BlocksTokens(context, blocks, band, 0)) && Writable(coding, BlocksTokens(context, blocks, band, 0))
    requires start <= |data| && data == data[..start] + SegmentBytes(BitsOfTokens(coding, BlocksTokens(context, blocks, band, 0))) + after
    requires 0 < |data| && (after == [] || (|after| >= 2 && after[0] == 0xFF && after[1] != 0))
    ensures ok && decoded == AllFilled(blocks, band, coeffs) && eobRun <= 0
    ensures read == |BitsOfTokens(coding, BlocksTokens(context, blocks, band, 0))|
  {
    hide Refines, Ahead, DecodeBlocks, HuffmanCode.Valid, HasTable, TableOf, InTable, Writable, SmallBand, AllNarrow, BlocksTokens, BitsOfTokens;
    hide SegmentBytes, AllFilled, Stream;
    ghost var s := BitsOfTokens(coding, BlocksTokens(context, blocks, band, 0));
    ghost var last := |s| + 2048 * |coeffs|;
    var br := new BitReaderState(data, start);
    StreamOfSegment(data[..start], s, after);
    AheadSplit(data, start, 0, |s|, last);
    ghost var end := BlocksAreRead(coding, context, t, c, blocks, band, coeffs, -1, Ahead(data, start, |s|, last));
    ok, decoded, eobRun := DecodeBandBlocks(acLut, br, coeffs, band, t, last);
    read := br.Consumed();
    AheadLength(data, start, read, last);
    AheadLength(data, start, |s|, last);
  }
}
