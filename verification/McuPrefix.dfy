/** A decoder does not look beyond the bits of what it decodes: bit strings that agree up to the end of an MCU
    decode to the same MCU. */
module McuPrefix {
  import opened BitStrings
  import opened HuffmanCode
  import opened BlockSymbols
  import opened BlockDecoding
  import opened PredictedBlocks
  import opened SuspendedReading
  import opened McuStability

  /** Equally long bit strings that agree up to their last n bits. */
  predicate Agree(bits: Bits, bits2: Bits, n: nat) {
    n <= |bits| == |bits2| && bits[..|bits| - n] == bits2[..|bits| - n]
  }

  function Last(bits: Bits, n: nat): Bits
    requires n <= |bits|
  {
    bits[|bits| - n..]
  }

  /** What was decoded from the one is decoded from the other, and the rest of each is left. */
  ghost predicate Same<T>(d: Decoded<T>, bits: Bits, e: Decoded<T>, bits2: Bits) {
    d.Got? && |d.rest| <= |bits| && |d.rest| <= |bits2| && d.rest == Last(bits, |d.rest|) && e == Got(d.value, Last(bits2, |d.rest|))
  }

  lemma AgreeAfter(bits: Bits, bits2: Bits, n: nat, m: nat)
    requires Agree(bits, bits2, n) && n <= m <= |bits|
    ensures Agree(bits, bits2, m) && Agree(Last(bits, m), Last(bits2, m), n)
    ensures Last(Last(bits, m), n) == Last(bits, n) && Last(Last(bits2, m), n) == Last(bits2, n)
  {
    var k, l := |bits| - m, |bits| - n;
    assert bits[..l][..k] == bits[..k] && bits2[..l][..k] == bits2[..k];
    assert bits[k..][..m - n] == bits[..l][k..] && bits2[k..][..m - n] == bits2[..l][k..];
  }

  /** The rest of the rest. */
  lemma LastOfLast(bits: Bits, m: nat, n: nat)
    requires n <= m <= |bits|
    ensures |Last(bits, m)| == m && Last(Last(bits, m), n) == Last(bits, n)
  {
  }

  lemma SameAfter<T>(d: Decoded<T>, bits: Bits, e: Decoded<T>, bits2: Bits, m: nat)
    requires m <= |bits| == |bits2| && Same(d, Last(bits, m), e, Last(bits2, m))
    ensures Same(d, bits, e, bits2)
  {
    LastOfLast(bits, m, |d.rest|);
    LastOfLast(bits2, m, |d.rest|);
  }

  lemma SymbolPrefix(t: HuffmanTable, bits: Bits, bits2: Bits, n: nat)
    requires Valid(t) && DecodeSymbol(t, bits).Got? && n <= |DecodeSymbol(t, bits).rest| && Agree(bits, bits2, n)
    ensures Same(DecodeSymbol(t, bits), bits, DecodeSymbol(t, bits2), bits2) && DecodeSymbol(t, bits).value < 256
  {
    hide DecodeSymbol, Valid;
    SymbolRest(t, bits);
    var m := |DecodeSymbol(t, bits).rest|;
    AgreeAfter(bits, bits2, n, m);
    SymbolIsCode(t, bits);
    SameWord(t, bits, bits2, |bits| - m);
  }

  lemma BitsPrefix(bits: Bits, bits2: Bits, s: nat, n: nat)
    requires s + n <= |bits| && Agree(bits, bits2, n)
    ensures Same(ReadBits(bits, s), bits, ReadBits(bits2, s), bits2) && |ReadBits(bits, s).rest| == |bits| - s
  {
    assert bits[..s] == bits[..|bits| - n][..s] && bits2[..s] == bits2[..|bits| - n][..s];
  }

  lemma DifferencePrefix(dc: HuffmanTable, bits: Bits, bits2: Bits, n: nat)
    requires Valid(dc) && Difference(dc, bits).Got? && n <= |Difference(dc, bits).rest| && Agree(bits, bits2, n)
    ensures Same(Difference(dc, bits), bits, Difference(dc, bits2), bits2)
  {
    hide DecodeSymbol, HuffExtend, Valid, Last;
    DifferenceRest(dc, bits);
    SymbolPrefix(dc, bits, bits2, n);
    var Got(s, bits1) := DecodeSymbol(dc, bits);
    AgreeAfter(bits, bits2, n, |bits1|);
    if s > 0 {
      BitsPrefix(bits1, Last(bits2, |bits1|), s, n);
      AgreeAfter(bits, bits2, |bits1| - s, |bits1|);
    }
  }

  lemma {:induction false} AcPrefix(ac: HuffmanTable, k: nat, coeffs: Block, bits: Bits, bits2: Bits, n: nat)
    requires Valid(ac) && DecodeAc(ac, k, coeffs, bits).Got? && n <= |DecodeAc(ac, k, coeffs, bits).rest| && Agree(bits, bits2, n)
    ensures Same(DecodeAc(ac, k, coeffs, bits), bits, DecodeAc(ac, k, coeffs, bits2), bits2)
    decreases 64 - k
  {
    hide DecodeSymbol, DecodeAc, ReadBits, HuffExtend, Valid, Last, Agree, AcLeft;
    AcRest(ac, k, coeffs, bits);
    if k > 63 {
      AcEnds(ac, k, coeffs, bits);
      AcEnds(ac, k, coeffs, bits2);
      AgreeAfter(bits, bits2, n, |bits|);
      WholeIsLast(bits);
      WholeIsLast(bits2);
    } else {
      AcStarts(ac, k, coeffs, bits);
      SymbolPrefix(ac, bits, bits2, n);
      var Got(sr, bits1) := DecodeSymbol(ac, bits);
      var next := Last(bits2, |bits1|);
      AgreeAfter(bits, bits2, n, |bits1|);
      var r, s := sr / 16, sr % 16;
      if s > 0 {
        BitsPrefix(bits1, next, s, n);
        var Got(v, after) := ReadBits(bits1, s);
        AgreeAfter(bits1, next, n, |after|);
        LastOfLast(bits, |bits1|, |after|);
        LastOfLast(bits2, |bits1|, |after|);
        AcStep(ac, k, coeffs, bits, sr, bits1, v, after);
        AcStep(ac, k, coeffs, bits2, sr, next, v, Last(next, |after|));
        AcPrefix(ac, k + r + 1, coeffs[k + r := HuffExtend(v, s)], after, Last(next, |after|), n);
        SameAfter(DecodeAc(ac, k, coeffs, bits), bits, DecodeAc(ac, k, coeffs, bits2), bits2, |after|);
      } else {
        AcStep(ac, k, coeffs, bits, sr, bits1, 0, []);
        AcStep(ac, k, coeffs, bits2, sr, next, 0, []);
        if r == 15 {
          AcPrefix(ac, k + 16, coeffs, bits1, next, n);
          SameAfter(DecodeAc(ac, k, coeffs, bits), bits, DecodeAc(ac, k, coeffs, bits2), bits2, |bits1|);
        }
      }
    }
  }

  lemma WholeIsLast(bits: Bits)
    ensures Last(bits, |bits|) == bits
  {
  }

  /** If AC coefficients are decoded, then so is their first symbol, with its extra bits. */
  lemma AcStarts(ac: HuffmanTable, k: nat, coeffs: Block, bits: Bits)
    requires Valid(ac) && k <= 63 && DecodeAc(ac, k, coeffs, bits).Got?
    ensures DecodeSymbol(ac, bits).Got?
    ensures var Got(sr, bits1) := DecodeSymbol(ac, bits);
            && |DecodeAc(ac, k, coeffs, bits).rest| + sr % 16 <= |bits1|
            && (sr % 16 > 0 ==> k + sr / 16 <= 63 && sr % 16 < DC_ALPHABET_SIZE)
  {
    hide DecodeSymbol, HuffExtend, Valid;
    var Got(sr, bits1) := DecodeSymbol(ac, bits);
    var r, s := sr / 16, sr % 16;
    if s > 0 {
      AcRest(ac, k + r + 1, coeffs[k + r := HuffExtend(ReadBits(bits1, s).value, s)], bits1[s..]);
    } else if r == 15 {
      AcRest(ac, k + 16, coeffs, bits1);
    }
  }

  lemma BlockPrefix(kind: BlockKind, lastDc: int, bits: Bits, bits2: Bits, n: nat)
    requires Valid(kind.dc) && Valid(kind.ac) && PredictedBlock(kind, lastDc, bits).Got?
    requires n <= |PredictedBlock(kind, lastDc, bits).rest| && Agree(bits, bits2, n)
    ensures Same(PredictedBlock(kind, lastDc, bits), bits, PredictedBlock(kind, lastDc, bits2), bits2)
  {
    hide Difference, DecodeAc, Valid, Last, Agree, WithDc, ZeroBlock;
    var Got(d, rest) := Difference(kind.dc, bits);
    var start := ZeroBlock()[0 := d];
    DifferenceRest(kind.dc, bits);
    AcRest(kind.ac, 1, start, rest);
    DifferencePrefix(kind.dc, bits, bits2, n);
    AgreeAfter(bits, bits2, n, |rest|);
    AcPrefix(kind.ac, 1, start, rest, Last(bits2, |rest|), n);
    SameAfter(DecodeAc(kind.ac, 1, start, rest), bits, DecodeAc(kind.ac, 1, start, Last(bits2, |rest|)), bits2, |rest|);
  }

  /** The MCU depends only on its own bits. */
  lemma {:induction false} McuPrefix(kinds: seq<BlockKind>, lastDc: seq<int>, bits: Bits, bits2: Bits, n: nat)
    requires Supported(kinds, |lastDc|) && DecodeMcu(kinds, lastDc, bits).Got?
    requires n <= |DecodeMcu(kinds, lastDc, bits).rest| && Agree(bits, bits2, n)
    ensures Same(DecodeMcu(kinds, lastDc, bits), bits, DecodeMcu(kinds, lastDc, bits2), bits2)
  {
    hide PredictedBlock, Valid, Last, Agree;
    if kinds == [] {
      AgreeAfter(bits, bits2, n, |bits|);
      WholeIsLast(bits);
      WholeIsLast(bits2);
    } else {
      var kind := kinds[0];
      var Got(b, rest) := PredictedBlock(kind, lastDc[kind.component], bits);
      var next := lastDc[kind.component := b[0]];
      BlockRest(kind, lastDc[kind.component], bits);
      BlockLeftBound(kind, lastDc[kind.component], bits);
      McuLeftBound(kinds[1..], next, rest);
      BlockPrefix(kind, lastDc[kind.component], bits, bits2, n);
      AgreeAfter(bits, bits2, n, |rest|);
      McuPrefix(kinds[1..], next, rest, Last(bits2, |rest|), n);
      SameAfter(DecodeMcu(kinds[1..], next, rest), bits, DecodeMcu(kinds[1..], next, Last(bits2, |rest|)), bits2, |rest|);
    }
  }
}
