/**
 MCUs of a sequential scan as functions of the bits, and why more input does not change them:
 what is decoded before the last two bytes of the input, or rejected there, is decoded or rejected with
 any further input.
 */
module McuStability {
  import opened Arithmetic
  import opened BitStrings
  import opened HuffmanCode
  import opened EntropyStream
  import opened BlockSymbols
  import opened BlockDecoding
  import opened PredictedBlocks
  import opened BlockReader
  import opened SuspendedReading

  // ---------------------------------------------------------------- more input

  /** There is more input, and the bits before c are not within the last two bytes of what there was. */
  ghost predicate Settled(data: seq<Byte>, more: seq<Byte>, start: nat, c: nat) {
    data <= more && start <= |data| && PosAt(data, start, c / 8) + 2 <= |data|
  }

  lemma {:induction false} PosMono(data: seq<Byte>, pos: nat, k: nat, j: nat)
    requires j <= k
    ensures PosAt(data, pos, j) <= PosAt(data, pos, k)
  {
    if j < k {
      PosMono(data, pos, k - 1, j);
      PosGrows(data, pos, k - 1);
    }
  }

  lemma SettledBefore(data: seq<Byte>, more: seq<Byte>, start: nat, c: nat, last: nat)
    requires Settled(data, more, start, last) && c <= last
    ensures Settled(data, more, start, c)
  {
    PosMono(data, start, last / 8, c / 8);
  }

  lemma SymbolSettled(t: HuffmanTable, data: seq<Byte>, more: seq<Byte>, start: nat, c: nat, end: nat)
    requires Valid(t) && data <= more && start <= |data| && c + 16 <= end
    ensures var d, e := DecodeSymbol(t, Ahead(data, start, c, end)), DecodeSymbol(t, Ahead(more, start, c, end));
            match d
            case Fail => e == Fail
            case Got(value, rest) =>
              value < 256 && end - c - 16 <= |rest| <= end - c &&
              var c2 := end - |rest|;
              && rest == Ahead(data, start, c2, end)
              && (Settled(data, more, start, c2) ==> e == Got(value, Ahead(more, start, c2, end)))
  {
    hide DecodeSymbol, Ahead, Settled, Valid;
    var bits := Ahead(data, start, c, end);
    if DecodeSymbol(t, bits) == Fail {
      FailSettled(t, data, more, start, c, end);
    } else {
      SymbolRest(t, bits);
      AheadLength(data, start, c, end);
      SymbolIsCode(t, bits);
      CodeSettled(t, data, more, start, c, |bits| - |DecodeSymbol(t, bits).rest|, end);
    }
  }

  lemma FailSettled(t: HuffmanTable, data: seq<Byte>, more: seq<Byte>, start: nat, c: nat, end: nat)
    requires Valid(t) && data <= more && start <= |data| && c + 16 <= end && DecodeSymbol(t, Ahead(data, start, c, end)) == Fail
    ensures DecodeSymbol(t, Ahead(more, start, c, end)) == Fail
  {
    hide DecodeSymbol, Valid;
    InvalidWithMoreInput(t, data, more, start, c, end - c);
  }

  lemma SymbolIsCode(t: HuffmanTable, bits: Bits)
    requires Valid(t) && DecodeSymbol(t, bits).Got? && |DecodeSymbol(t, bits).rest| <= |bits|
    ensures DecodeSymbol(t, bits).value < 256
    ensures DecodeSymbol(t, bits).rest == bits[|bits| - |DecodeSymbol(t, bits).rest|..]
  {
    var p := DecodedIsWord(t, bits);
    hide DecodeSymbol, Word, Fits, Distinct;
    assert t.huffval[p] < 256;
  }

  lemma CodeSettled(t: HuffmanTable, data: seq<Byte>, more: seq<Byte>, start: nat, c: nat, l: nat, end: nat)
    requires Valid(t) && c + l <= end && DecodeSymbol(t, Ahead(data, start, c, end)).Got?
    requires |DecodeSymbol(t, Ahead(data, start, c, end)).rest| == end - c - l
    ensures Ahead(data, start, c, end)[l..] == Ahead(data, start, c + l, end)
    ensures Settled(data, more, start, c + l) ==>
            DecodeSymbol(t, Ahead(more, start, c, end)) == Got(DecodeSymbol(t, Ahead(data, start, c, end)).value, Ahead(more, start, c + l, end))
  {
    hide DecodeSymbol, Valid;
    StreamSlice(data, start, c, end - c, l);
    StreamSlice(more, start, c, end - c, l);
    if Settled(data, more, start, c + l) {
      StreamOfPrefix(data, more, start, c, l, c + l);
      SameWord(t, Ahead(data, start, c, end), Ahead(more, start, c, end), l);
    }
  }

  /** Bits for all symbols and values that can still follow. */
  predicate Enough(k: nat, n: int) {
    k > 63 || 32 * (64 - k) <= n
  }

  lemma BitsSettled(data: seq<Byte>, more: seq<Byte>, start: nat, c: nat, s: nat, end: nat)
    requires Settled(data, more, start, c + s) && c + s <= end
    ensures Ahead(data, start, c, end)[s..] == Ahead(data, start, c + s, end) && |Ahead(data, start, c, end)| == end - c
    ensures Ahead(more, start, c, end)[s..] == Ahead(more, start, c + s, end)
    ensures var d := ReadBits(Ahead(data, start, c, end), s);
            d.Got? && d.rest == Ahead(data, start, c + s, end)
            && ReadBits(Ahead(more, start, c, end), s) == Got(d.value, Ahead(more, start, c + s, end))
  {
    StreamSlice(data, start, c, end - c, s);
    StreamSlice(more, start, c, end - c, s);
    StreamOfPrefix(data, more, start, c, s, c + s);
  }

  /** What the AC coefficients are, or that they are rejected, is settled by the bits up to their end. */
  lemma {:induction false} AcSettled(ac: HuffmanTable, k: nat, coeffs: Block, data: seq<Byte>, more: seq<Byte>, start: nat, c: nat, end: nat)
    requires Valid(ac) && c <= end && Enough(k, end - c)
    requires Settled(data, more, start, end - AcLeft(ac, k, Ahead(data, start, c, end)))
    ensures var left := AcLeft(ac, k, Ahead(data, start, c, end));
            match DecodeAc(ac, k, coeffs, Ahead(data, start, c, end))
            case Fail => DecodeAc(ac, k, coeffs, Ahead(more, start, c, end)) == Fail
            case Got(b, rest) => rest == Ahead(data, start, end - left, end)
                                 && DecodeAc(ac, k, coeffs, Ahead(more, start, c, end)) == Got(b, Ahead(more, start, end - left, end))
    decreases 64 - k, 1
  {
    hide DecodeSymbol, DecodeAc, ReadBits, HuffExtend, Valid, AcLeft, Ahead, Settled;
    var bits, bits2 := Ahead(data, start, c, end), Ahead(more, start, c, end);
    AheadLength(data, start, c, end);
    if k > 63 {
      AcEnds(ac, k, coeffs, bits);
      AcEnds(ac, k, coeffs, bits2);
      AcLeftEnds(ac, k, bits);
    } else {
      SettledInput(data, more, start, end - AcLeft(ac, k, bits));
      SymbolSettled(ac, data, more, start, c, end);
      match DecodeSymbol(ac, bits)
      case Fail =>
        AcFails(ac, k, coeffs, bits);
        AcFails(ac, k, coeffs, bits2);
      case Got(sr, bits1) => AcSettledAfter(ac, k, coeffs, data, more, start, c, end, sr, end - |bits1|);
    }
  }

  lemma SettledInput(data: seq<Byte>, more: seq<Byte>, start: nat, c: nat)
    requires Settled(data, more, start, c)
    ensures data <= more && start <= |data|
  {
  }

  lemma AcSettledAfter(ac: HuffmanTable, k: nat, coeffs: Block, data: seq<Byte>, more: seq<Byte>, start: nat, c: nat, end: nat, sr: nat, c1: nat)
    requires Valid(ac) && k <= 63 && sr < 256 && c <= c1 <= c + 16 && Enough(k, end - c)
    requires c1 <= end && DecodeSymbol(ac, Ahead(data, start, c, end)) == Got(sr, Ahead(data, start, c1, end))
    requires Settled(data, more, start, c1) ==>
             DecodeSymbol(ac, Ahead(more, start, c, end)) == Got(sr, Ahead(more, start, c1, end))
    requires Settled(data, more, start, end - AcLeft(ac, k, Ahead(data, start, c, end)))
    ensures var left := AcLeft(ac, k, Ahead(data, start, c, end));
            match DecodeAc(ac, k, coeffs, Ahead(data, start, c, end))
            case Fail => DecodeAc(ac, k, coeffs, Ahead(more, start, c, end)) == Fail
            case Got(b, rest) => rest == Ahead(data, start, end - left, end)
                                 && DecodeAc(ac, k, coeffs, Ahead(more, start, c, end)) == Got(b, Ahead(more, start, end - left, end))
    decreases 64 - k, 0
  {
    hide DecodeSymbol, DecodeAc, ReadBits, HuffExtend, Valid, AcLeft, Ahead, Settled;
    var bits, bits2 := Ahead(data, start, c, end), Ahead(more, start, c, end);
    var next, next2 := Ahead(data, start, c1, end), Ahead(more, start, c1, end);
    AheadLength(data, start, c1, end);
    var r, s := sr / 16, sr % 16;
    AcLeftStep(ac, k, bits, sr, next);
    SettledBefore(data, more, start, c1, end - AcLeft(ac, k, bits));
    if s > 0 && k + r <= 63 && s < DC_ALPHABET_SIZE {
      AheadLength(data, start, c1 + s, end);
      SettledBefore(data, more, start, c1 + s, end - AcLeft(ac, k, bits));
      BitsSettled(data, more, start, c1, s, end);
      var v := ReadBits(next, s).value;
      AcStep(ac, k, coeffs, bits, sr, next, v, Ahead(data, start, c1 + s, end));
      AcStep(ac, k, coeffs, bits2, sr, next2, v, Ahead(more, start, c1 + s, end));
      AcSettled(ac, k + r + 1, coeffs[k + r := HuffExtend(v, s)], data, more, start, c1 + s, end);
    } else {
      AcStep(ac, k, coeffs, bits, sr, next, 0, []);
      AcStep(ac, k, coeffs, bits2, sr, next2, 0, []);
      if s == 0 && r == 15 {
        AcSettled(ac, k + 16, coeffs, data, more, start, c1, end);
      }
    }
  }

  lemma DifferenceSettled(dc: HuffmanTable, data: seq<Byte>, more: seq<Byte>, start: nat, c: nat, end: nat)
    requires Valid(dc) && c + 32 <= end
    requires Settled(data, more, start, end - DifferenceLeft(dc, Ahead(data, start, c, end)))
    ensures var left := DifferenceLeft(dc, Ahead(data, start, c, end));
            && end - c - 32 <= left <= end - c
            && match Difference(dc, Ahead(data, start, c, end))
               case Fail => Difference(dc, Ahead(more, start, c, end)) == Fail
               case Got(d, rest) => rest == Ahead(data, start, end - left, end)
                                    && Difference(dc, Ahead(more, start, c, end)) == Got(d, Ahead(more, start, end - left, end))
  {
    hide DecodeSymbol, ReadBits, HuffExtend, Valid, Ahead, Settled;
    var bits := Ahead(data, start, c, end);
    AheadLength(data, start, c, end);
    SettledInput(data, more, start, end - DifferenceLeft(dc, bits));
    SymbolSettled(dc, data, more, start, c, end);
    match DecodeSymbol(dc, bits)
    case Fail =>
    case Got(s, bits1) =>
      var c1 := end - |bits1|;
      SettledBefore(data, more, start, c1, end - DifferenceLeft(dc, bits));
      if 0 < s < DC_ALPHABET_SIZE {
        BitsSettled(data, more, start, c1, s, end);
      }
  }

  lemma BlockSettled(kind: BlockKind, lastDc: int, data: seq<Byte>, more: seq<Byte>, start: nat, c: nat, end: nat)
    requires Valid(kind.dc) && Valid(kind.ac) && c + MANY <= end
    requires BlockLeft(kind, lastDc, Ahead(data, start, c, end)) <= end - c
    requires Settled(data, more, start, end - BlockLeft(kind, lastDc, Ahead(data, start, c, end)))
    ensures var left := BlockLeft(kind, lastDc, Ahead(data, start, c, end));
            match PredictedBlock(kind, lastDc, Ahead(data, start, c, end))
            case Fail => PredictedBlock(kind, lastDc, Ahead(more, start, c, end)) == Fail
            case Got(b, rest) => rest == Ahead(data, start, end - left, end)
                                 && PredictedBlock(kind, lastDc, Ahead(more, start, c, end)) == Got(b, Ahead(more, start, end - left, end))
  {
    hide Difference, DifferenceLeft, DecodeAc, AcLeft, Valid, Ahead, Settled, WithDc, ZeroBlock;
    var bits := Ahead(data, start, c, end);
    DifferenceRest(kind.dc, bits);
    AheadLength(data, start, c, end);
    var left := DifferenceLeft(kind.dc, bits);
    SettledBefore(data, more, start, end - left, end - BlockLeft(kind, lastDc, bits));
    DifferenceSettled(kind.dc, data, more, start, c, end);
    if Difference(kind.dc, bits).Got? {
      var d := Difference(kind.dc, bits).value;
      if FitsInt16(d + lastDc) {
        AcSettled(kind.ac, 1, ZeroBlock()[0 := d], data, more, start, end - left, end);
      }
    }
  }

  // ---------------------------------------------------------------- MCUs

  /** The tables are valid and the components exist. */
  predicate Supported(kinds: seq<BlockKind>, components: nat) {
    forall i :: 0 <= i < |kinds| ==> Valid(kinds[i].dc) && Valid(kinds[i].ac) && kinds[i].component < components
  }

  /** An MCU: its blocks in order, and the DC values that the next one is predicted from. */
  datatype Mcu = Mcu(blocks: seq<Block>, lastDc: seq<int>)

  function DecodeMcu(kinds: seq<BlockKind>, lastDc: seq<int>, bits: Bits): Decoded<Mcu>
    requires Supported(kinds, |lastDc|)
  {
    if kinds == [] then Got(Mcu([], lastDc), bits) else
      var kind := kinds[0];
      match PredictedBlock(kind, lastDc[kind.component], bits)
      case Fail => Fail
      case Got(b, rest) =>
        match DecodeMcu(kinds[1..], lastDc[kind.component := b[0]], rest)
        case Fail => Fail
        case Got(mcu, rest2) => Got(Mcu([b] + mcu.blocks, mcu.lastDc), rest2)
  }

  /** The number of bits that are left where an MCU ends, or where it is rejected. */
  function McuLeft(kinds: seq<BlockKind>, lastDc: seq<int>, bits: Bits): nat
    requires Supported(kinds, |lastDc|)
  {
    if kinds == [] then |bits| else
      var kind := kinds[0];
      match PredictedBlock(kind, lastDc[kind.component], bits)
      case Fail => BlockLeft(kind, lastDc[kind.component], bits)
      case Got(b, rest) => McuLeft(kinds[1..], lastDc[kind.component := b[0]], rest)
  }

  lemma {:induction false} McuLeftBound(kinds: seq<BlockKind>, lastDc: seq<int>, bits: Bits)
    requires Supported(kinds, |lastDc|)
    ensures |bits| - MANY * |kinds| <= McuLeft(kinds, lastDc, bits) <= |bits|
    ensures DecodeMcu(kinds, lastDc, bits).Got? ==> McuLeft(kinds, lastDc, bits) == |DecodeMcu(kinds, lastDc, bits).rest|
  {
    hide PredictedBlock, BlockLeft, Valid;
    if kinds != [] {
      var kind := kinds[0];
      BlockLeftBound(kind, lastDc[kind.component], bits);
      BlockRest(kind, lastDc[kind.component], bits);
      if PredictedBlock(kind, lastDc[kind.component], bits).Got? {
        var Got(b, rest) := PredictedBlock(kind, lastDc[kind.component], bits);
        McuLeftBound(kinds[1..], lastDc[kind.component := b[0]], rest);
      }
    }
  }

  /** An MCU, or that there is none, is settled by the bits up to its end. */
  lemma {:induction false} McuSettled(kinds: seq<BlockKind>, lastDc: seq<int>, data: seq<Byte>, more: seq<Byte>, start: nat, c: nat, end: nat)
    requires Supported(kinds, |lastDc|) && c + MANY * |kinds| <= end
    requires McuLeft(kinds, lastDc, Ahead(data, start, c, end)) <= end - c
    requires Settled(data, more, start, end - McuLeft(kinds, lastDc, Ahead(data, start, c, end)))
    ensures var left := McuLeft(kinds, lastDc, Ahead(data, start, c, end));
            match DecodeMcu(kinds, lastDc, Ahead(data, start, c, end))
            case Fail => DecodeMcu(kinds, lastDc, Ahead(more, start, c, end)) == Fail
            case Got(mcu, rest) => rest == Ahead(data, start, end - left, end)
                                   && DecodeMcu(kinds, lastDc, Ahead(more, start, c, end)) == Got(mcu, Ahead(more, start, end - left, end))
    decreases |kinds|
  {
    hide PredictedBlock, BlockLeft, Valid, Ahead, Settled;
    var bits := Ahead(data, start, c, end);
    AheadLength(data, start, c, end);
    if kinds != [] {
      var kind := kinds[0];
      var last := lastDc[kind.component];
      BlockLeftBound(kind, last, bits);
      BlockRest(kind, last, bits);
      var c1 := end - BlockLeft(kind, last, bits);
      if PredictedBlock(kind, last, bits).Got? {
        var Got(b, rest) := PredictedBlock(kind, last, bits);
        McuLeftBound(kinds[1..], lastDc[kind.component := b[0]], rest);
        SettledBefore(data, more, start, c1, end - McuLeft(kinds, lastDc, bits));
        BlockSettled(kind, last, data, more, start, c, end);
        McuSettled(kinds[1..], lastDc[kind.component := b[0]], data, more, start, c1, end);
      } else {
        BlockSettled(kind, last, data, more, start, c, end);
      }
    }
  }
}
