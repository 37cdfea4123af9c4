/** Decoding a block of a refinement pass of a progressive AC scan with the bit reader (RefineDCTBlock in
    lib/jpegli/decode_scan.cc). */
module RefinementReader {
  import opened Arithmetic
  import opened BitStrings
  import opened HuffmanCode
  import opened EntropyBytes
  import opened EntropyStream
  import opened BlockSymbols
  import opened BlockDecoding
  import opened BlockReader
  import opened HuffmanLookup
  import opened SymbolLookup
  import opened BitReader
  import opened ProgressiveBlocks
  import opened ProgressiveReader
  import opened RefinementBlocks

  lemma OneBitAhead(data: seq<Byte>, start: nat, c: nat, bit: nat, last: nat)
    requires bit < Pow2(1) && Low(bit, 1) == Stream(data, start, c, 1) && c + 1 <= last
    ensures bit < 2 && Ahead(data, start, c, last) != [] && Ahead(data, start, c, last)[0] == (bit == 1)
    ensures Ahead(data, start, c, last)[1..] == Ahead(data, start, c + 1, last)
  {
    StreamSlice(data, start, c, last - c, 1);
    assert Pow2(0) == 1 && Low(bit, 0) == [];
    assert Low(bit, 1)[0] == (bit == 1);
    assert Ahead(data, start, c, last)[..1][0] == Ahead(data, start, c, last)[0];
  }

  /** The correction bit of a coefficient that is not zero. */
  method CorrectOne(br: BitReaderState, coeffs: array<int>, band: Band, k: nat, ghost last: nat)
    requires br.Valid() && coeffs.Length == 64 && k < 64 && br.Consumed() + 1 <= last
    modifies br, coeffs
    ensures br.Valid() && br.Consumed() == old(br.Consumed()) + 1
    ensures var bits := Ahead(br.data, br.start, old(br.Consumed()), last);
      && bits != [] && bits[1..] == Ahead(br.data, br.start, br.Consumed(), last)
      && coeffs[..] == old(coeffs[..])[k := Corrected(old(coeffs[k]), band.shift, bits[0])]
  {
    hide Ahead, Stream, Low, Pow2;
    var bit := br.ReadBits(1);
    OneBitAhead(br.data, br.start, br.Consumed() - 1, bit, last);
    var c := coeffs[k];
    if bit == 1 && c / Pow2(band.shift) % 2 == 0 {
      coeffs[k] := if c >= 0 then c + Pow2(band.shift) else c - Pow2(band.shift);
    }
    assert coeffs[..] == old(coeffs[..])[k := coeffs[k]];
  }

  /** To the zero after r others, or past the band. */
  method SkipToZero(br: BitReaderState, coeffs: array<int>, band: Band, from: nat, run: nat, ghost last: nat) returns (k: nat)
    requires br.Valid() && coeffs.Length == 64 && band.Valid() && from <= band.last && br.Consumed() + 64 - from <= last
    modifies br, coeffs
    ensures br.Valid() && old(br.Consumed()) <= br.Consumed() && from <= k <= band.last + 1
    ensures br.Consumed() + 64 - k <= old(br.Consumed()) + 64 - from
    ensures SkipZeros(band, from, run, old(coeffs[..]), Ahead(br.data, br.start, old(br.Consumed()), last))
         == Got(Place(k, coeffs[..]), Ahead(br.data, br.start, br.Consumed(), last))
  {
    hide Ahead, Corrected;
    ghost var c0, first, bits := br.Consumed(), coeffs[..], Ahead(br.data, br.start, br.Consumed(), last);
    k := from;
    var r := run;
    while k <= band.last && (coeffs[k] != 0 || r > 0)
      invariant br.Valid() && c0 <= br.Consumed() && from <= k <= band.last + 1 && br.Consumed() + 64 - k <= c0 + 64 - from && 0 <= r
      invariant SkipZeros(band, from, run, first, bits) == SkipZeros(band, k, r, coeffs[..], Ahead(br.data, br.start, br.Consumed(), last))
      decreases 64 - k
    {
      if coeffs[k] != 0 {
        CorrectOne(br, coeffs, band, k, last);
      } else {
        r := r - 1;
      }
      k := k + 1;
    }
  }

  /** The correction bits of the rest of the band. */
  method CorrectToEnd(br: BitReaderState, coeffs: array<int>, band: Band, from: nat, ghost last: nat)
    requires br.Valid() && coeffs.Length == 64 && band.Valid() && from <= band.last + 1 && br.Consumed() + 64 - from <= last
    modifies br, coeffs
    ensures br.Valid() && old(br.Consumed()) <= br.Consumed() <= old(br.Consumed()) + 64 - from
    ensures var after: Block := coeffs[..];
            CorrectRest(band, from, old(coeffs[..]), Ahead(br.data, br.start, old(br.Consumed()), last))
              == Got(after, Ahead(br.data, br.start, br.Consumed(), last))
  {
    hide Ahead, Corrected;
    ghost var c0, first, bits := br.Consumed(), coeffs[..], Ahead(br.data, br.start, br.Consumed(), last);
    for k := from to band.last + 1
      invariant br.Valid() && c0 <= br.Consumed() && br.Consumed() + 64 - k <= c0 + 64 - from
      invariant CorrectRest(band, from, first, bits) == CorrectRest(band, k, coeffs[..], Ahead(br.data, br.start, br.Consumed(), last))
    {
      if coeffs[k] != 0 {
        CorrectOne(br, coeffs, band, k, last);
      }
    }
  }

  lemma RefineFails(ac: HuffmanTable, band: Band, k: nat, inZeroRun: bool, coeffs: Block, eobRun: int, bits: Bits)
    requires Valid(ac) && band.Valid() && k <= band.last
    requires match DecodeSymbol(ac, bits)
             case Fail => true
             case Got(sr, _) => sr % 16 > 1
    ensures RefineFrom(ac, band, k, inZeroRun, coeffs, eobRun, bits) == Fail
  {
    hide DecodeSymbol, SkipZeros;
  }

  /** A symbol after which the band ends too early, or an end of the band right after a run of sixteen zeros. */
  lemma RefineStuck(ac: HuffmanTable, band: Band, k: nat, inZeroRun: bool, coeffs: Block, eobRun: int, bits: Bits, sr: nat, bits1: Bits,
                    v: nat, bits2: Bits, at: Place, bits3: Bits)
    requires Valid(ac) && band.Valid() && k <= band.last && sr < 256 && sr % 16 <= 1 && DecodeSymbol(ac, bits) == Got(sr, bits1)
    requires ReadBits(bits1, NumExtraBits(sr)) == Got(v, bits2)
    requires if sr == 0xF0 || sr % 16 == 1 then SkipZeros(band, k, sr / 16, coeffs, bits2) == Got(at, bits3) && at.k > band.last else inZeroRun
    ensures RefineFrom(ac, band, k, inZeroRun, coeffs, eobRun, bits) == Fail
  {
    hide DecodeSymbol, SkipZeros, Valid, Pow2;
    if sr == 0xF0 {
      assert bits1[0..] == bits1;
    }
  }

  /** A symbol, with the sign or the run length that comes with it; nothing more if it is not one of a refinement pass. */
  method ReadRefinement(acLut: array<Entry>, br: BitReaderState, ghost t: HuffmanTable, ghost last: nat)
      returns (sr: nat, x: nat, ghost ahead1: Bits)
    requires br.Valid() && acLut.Length == LUT_SIZE && Refines(t, acLut[..]) && br.Consumed() + 32 <= last && HuffmanCode.Valid(t)
    modifies br
    ensures br.Valid() && old(br.Consumed()) <= br.Consumed() <= old(br.Consumed()) + 32
    ensures var ahead := Ahead(br.data, br.start, old(br.Consumed()), last);
      if sr >= INVALID_SYMBOL then DecodeSymbol(t, ahead) == Fail
      else
        && sr < 256 && DecodeSymbol(t, ahead) == Got(sr, ahead1)
        && (sr % 16 <= 1 ==> BlockDecoding.ReadBits(ahead1, NumExtraBits(sr)) == Got(x, Ahead(br.data, br.start, br.Consumed(), last)))
  {
    hide Refines, Stream, SymbolRead, DecodeSymbol, BlockDecoding.ReadBits, HuffmanCode.Valid, Pow2, Low, Ahead;
    ghost var c := br.Consumed();
    sr := br.ReadSymbol(acLut, t);
    ghost var c1 := br.Consumed();
    NextSymbol(t, br.data, br.start, c, c1, sr, last);
    x, ahead1 := 0, Ahead(br.data, br.start, c1, last);
    if sr >= INVALID_SYMBOL {
      return;
    }
    if sr % 16 == 1 {
      x := br.ReadBits(1);
      NextBits(br.data, br.start, c1, 1, x, last);
    } else if sr % 16 == 0 && 0 < sr / 16 < 15 {
      x := br.ReadBits(sr / 16);
      NextBits(br.data, br.start, c1, sr / 16, x, last);
    } else {
      NoBitsAhead(br.data, br.start, c1, last);
    }
  }

  /** The symbols of one block; the result is where they end, the run of ends of bands, and whether they can be a block. */
  method RefineSymbols(acLut: array<Entry>, br: BitReaderState, coeffs: array<int>, band: Band, eobRun0: int, ghost t: HuffmanTable, ghost last: nat)
      returns (ok: bool, k: nat, eobRun: int)
    requires br.Valid() && acLut.Length == LUT_SIZE && Refines(t, acLut[..]) && coeffs.Length == 64 && band.Valid() && eobRun0 <= 0
    requires br.Consumed() + 64 * 128 <= last
    modifies br, coeffs
    ensures br.Valid() && old(br.Consumed()) <= br.Consumed() <= old(br.Consumed()) + 64 * 127 && HuffmanCode.Valid(t) && k <= band.last + 1
    ensures RefineFrom(t, band, band.first, false, old(coeffs[..]), eobRun0, Ahead(br.data, br.start, old(br.Consumed()), last))
         == if ok then Got(Refinement(Place(k, coeffs[..]), eobRun), Ahead(br.data, br.start, br.Consumed(), last)) else Fail
  {
    hide Refines, DecodeSymbol, RefineFrom, SkipZeros, BlockDecoding.ReadBits, HuffmanCode.Valid, Pow2, Ahead;
    RefinesValid(t, acLut[..]);
    ghost var c0, first, bits := br.Consumed(), coeffs[..], Ahead(br.data, br.start, br.Consumed(), last);
    eobRun := eobRun0;
    k := band.first;
    var inZeroRun := false;
    while k <= band.last
      invariant 1 <= k <= band.last + 1 && br.Valid() && c0 <= br.Consumed() && br.Consumed() + 127 * (64 - k) <= c0 + 127 * 63
      invariant RefineFrom(t, band, band.first, false, first, eobRun0, bits)
             == RefineFrom(t, band, k, inZeroRun, coeffs[..], eobRun0, Ahead(br.data, br.start, br.Consumed(), last))
      decreases 64 - k
    {
      ghost var before, ahead := coeffs[..], Ahead(br.data, br.start, br.Consumed(), last);
      var sr, x;
      ghost var ahead1;
      sr, x, ahead1 := ReadRefinement(acLut, br, t, last);
      if sr >= INVALID_SYMBOL || sr % 16 > 1 {
        RefineFails(t, band, k, inZeroRun, before, eobRun0, ahead);
        return false, k, eobRun;
      }
      var r, s := sr / 16, sr % 16;
      ghost var ahead2 := Ahead(br.data, br.start, br.Consumed(), last);
      if s == 0 && r < 15 {
        if inZeroRun {
          RefineStuck(t, band, k, inZeroRun, before, eobRun0, ahead, sr, ahead1, x, ahead2, Place(k, before), ahead2);
          return false, k, eobRun;
        }
        RefineStep(t, band, k, inZeroRun, before, eobRun0, ahead, sr, ahead1, x, ahead2, Place(k, before), ahead2);
        eobRun := Pow2(r) + x;
        return true, k, eobRun;
      }
      ghost var from := k;
      k := SkipToZero(br, coeffs, band, k, r, last);
      ghost var at, ahead3 := Place(k, coeffs[..]), Ahead(br.data, br.start, br.Consumed(), last);
      if k > band.last {
        RefineStuck(t, band, from, inZeroRun, before, eobRun0, ahead, sr, ahead1, x, ahead2, at, ahead3);
        return false, k, eobRun;
      }
      RefineStep(t, band, from, inZeroRun, before, eobRun0, ahead, sr, ahead1, x, ahead2, at, ahead3);
      inZeroRun := s == 0;
      if s == 1 {
        coeffs[k] := if x == 1 then Pow2(band.shift) else -Pow2(band.shift);
        assert coeffs[..] == at.coeffs[k := coeffs[k]];
      }
      k := k + 1;
    }
    ok := !inZeroRun;
    RefineOver(t, band, inZeroRun, coeffs[..], eobRun0, Ahead(br.data, br.start, br.Consumed(), last));
  }

  lemma RefineOver(ac: HuffmanTable, band: Band, inZeroRun: bool, coeffs: Block, eobRun: int, bits: Bits)
    requires Valid(ac) && band.Valid()
    ensures RefineFrom(ac, band, band.last + 1, inZeroRun, coeffs, eobRun, bits)
         == if inZeroRun then Fail else Got(Refinement(Place(band.last + 1, coeffs), eobRun), bits)
  {
  }

  /** One block of a refinement pass. */
  method RefineBandBlock(acLut: array<Entry>, br: BitReaderState, coeffs: array<int>, band: Band, eobRun0: int, ghost t: HuffmanTable, ghost last: nat)
      returns (ok: bool, eobRun: int)
    requires br.Valid() && acLut.Length == LUT_SIZE && Refines(t, acLut[..]) && coeffs.Length == 64 && band.Valid()
    requires br.Consumed() + 64 * 128 <= last
    modifies br, coeffs
    ensures br.Valid() && old(br.Consumed()) <= br.Consumed() <= old(br.Consumed()) + 64 * 128 && HuffmanCode.Valid(t)
    ensures RefineInBand(t, band, old(coeffs[..]), eobRun0, Ahead(br.data, br.start, old(br.Consumed()), last))
         == if ok then Got(BandState(coeffs[..], eobRun), Ahead(br.data, br.start, br.Consumed(), last)) else Fail
  {
    hide Refines, RefineFrom, CorrectRest, HuffmanCode.Valid, Ahead;
    RefinesValid(t, acLut[..]);
    var k := band.first;
    eobRun := eobRun0;
    if eobRun <= 0 {
      ok, k, eobRun := RefineSymbols(acLut, br, coeffs, band, eobRun, t, last);
      if !ok {
        return;
      }
    }
    if eobRun > 0 {
      CorrectToEnd(br, coeffs, band, k, last);
    }
    return true, eobRun - 1;
  }

  /** The first i blocks have been decoded; the others are those of the bits that follow. */
  ghost predicate RefinedTo(t: HuffmanTable, band: Band, coeffs: seq<Block>, bits: Bits, i: nat, blocks: seq<Block>, eobRun: int, ahead: Bits)
    requires HuffmanCode.Valid(t) && band.Valid() && i <= |coeffs|
  {
    RefineBlocks(t, band, coeffs, -1, bits) ==
    match RefineBlocks(t, band, coeffs[i..], eobRun, ahead)
    case Fail => Fail
    case Got(d, rest) => Got((blocks + d.0, d.1), rest)
  }

  lemma NoneRefined(t: HuffmanTable, band: Band, coeffs: seq<Block>, bits: Bits)
    requires HuffmanCode.Valid(t) && band.Valid()
    ensures RefinedTo(t, band, coeffs, bits, 0, [], -1, bits)
  {
    hide RefineBlocks;
    assert coeffs[0..] == coeffs;
    match RefineBlocks(t, band, coeffs, -1, bits)
    case Fail =>
    case Got(d, rest) => assert [] + d.0 == d.0 && d == (d.0, d.1);
  }

  lemma OneRefined(t: HuffmanTable, band: Band, coeffs: seq<Block>, bits: Bits, i: nat, blocks: seq<Block>, eobRun: int, ahead: Bits,
                   d: Decoded<BandState>)
    requires HuffmanCode.Valid(t) && band.Valid() && i < |coeffs| && RefinedTo(t, band, coeffs, bits, i, blocks, eobRun, ahead)
    requires RefineInBand(t, band, coeffs[i], eobRun, ahead) == d
    ensures if d.Got? then RefinedTo(t, band, coeffs, bits, i + 1, blocks + [d.value.coeffs], d.value.eobRun, d.rest)
            else RefineBlocks(t, band, coeffs, -1, bits) == Fail
  {
    hide RefineInBand, HuffmanCode.Valid;
    assert coeffs[i..][0] == coeffs[i] && coeffs[i..][1..] == coeffs[i + 1..];
    if d.Got? {
      match RefineBlocks(t, band, coeffs[i + 1..], d.value.eobRun, d.rest)
      case Fail =>
      case Got(e, rest) => assert blocks + ([d.value.coeffs] + e.0) == blocks + [d.value.coeffs] + e.0;
    }
  }

  lemma AllBlocksRefined(t: HuffmanTable, band: Band, coeffs: seq<Block>, bits: Bits, blocks: seq<Block>, eobRun: int, ahead: Bits)
    requires HuffmanCode.Valid(t) && band.Valid() && RefinedTo(t, band, coeffs, bits, |coeffs|, blocks, eobRun, ahead)
    ensures RefineBlocks(t, band, coeffs, -1, bits) == Got((blocks, eobRun), ahead)
  {
    assert coeffs[|coeffs|..] == [] && blocks + [] == blocks;
  }

  /** The blocks of a restart interval; each is one MCU of the scan. */
  method RefineBandBlocks(acLut: array<Entry>, br: BitReaderState, coeffs: seq<Block>, band: Band, ghost t: HuffmanTable, ghost last: nat)
      returns (ok: bool, blocks: seq<Block>, eobRun: int)
    requires br.Valid() && acLut.Length == LUT_SIZE && Refines(t, acLut[..]) && band.Valid()
    requires br.Consumed() + 8192 * |coeffs| <= last
    modifies br
    ensures br.Valid() && old(br.Consumed()) <= br.Consumed() <= last && HuffmanCode.Valid(t)
    ensures RefineBlocks(t, band, coeffs, -1, Ahead(br.data, br.start, old(br.Consumed()), last))
         == if ok then Got((blocks, eobRun), Ahead(br.data, br.start, br.Consumed(), last)) else Fail
  {
    hide Refines, Ahead, RefineInBand, RefineBlocks, RefinedTo, HuffmanCode.Valid;
    RefinesValid(t, acLut[..]);
    ghost var c0, bits := br.Consumed(), Ahead(br.data, br.start, br.Consumed(), last);
    blocks, eobRun := [], -1;
    NoneRefined(t, band, coeffs, bits);
    for i := 0 to |coeffs|
      invariant br.Valid() && c0 <= br.Consumed() && br.Consumed() + 8192 * (|coeffs| - i) <= last
      invariant Refines(t, acLut[..])
      invariant RefinedTo(t, band, coeffs, bits, i, blocks, eobRun, Ahead(br.data, br.start, br.Consumed(), last))
    {
      var block := new int[64](j requires 0 <= j < 64 => coeffs[i][j]);
      assert block[..] == coeffs[i];
      ghost var before, ahead := eobRun, Ahead(br.data, br.start, br.Consumed(), last);
      ok, eobRun := RefineBandBlock(acLut, br, block, band, eobRun, t, last);
      OneRefined(t, band, coeffs, bits, i, blocks, before, ahead,
                 if ok then Got(BandState(block[..], eobRun), Ahead(br.data, br.start, br.Consumed(), last)) else Fail);
      if !ok {
        return;
      }
      blocks := blocks + [block[..]];
    }
    AllBlocksRefined(t, band, coeffs, bits, blocks, eobRun, Ahead(br.data, br.start, br.Consumed(), last));
    ok := true;
  }
}
