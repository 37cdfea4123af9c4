/** All passes over a band of a progressive scan: the first one leaves out some bits of its coefficients, each of the others
    adds one, and after the last one the coefficients are exact. */
module SuccessivePasses {
  import opened Arithmetic
  import opened BitStrings
  import opened HuffmanCode
  import opened ScanWriter
  import opened BlockSymbols
  import opened BlockDecoding
  import opened BlockTokens
  import opened ProgressiveBlocks
  import opened RefinementBlocks

  /** The coefficients of the band are zero before the first pass. */
  predicate ZeroBand(band: Band, coeffs: Block)
    requires band.Valid()
  {
    forall j :: band.first <= j <= band.last ==> coeffs[j] == 0
  }

  function OneBitLess(band: Band): Band
    requires band.shift > 0
  {
    Band(band.first, band.last, band.shift - 1)
  }

  /** The coefficients of a block after the passes down to band.shift, of which the first one leaves out `top` bits. */
  function AfterPasses(b: Block, band: Band, top: nat, coeffs: Block): Block
    requires band.Valid() && band.shift <= top <= 13
    decreases top - band.shift
  {
    if band.shift == top then Filled(b, band, band.first, coeffs)
    else Refined(b, band, band.last + 1, AfterPasses(b, Band(band.first, band.last, band.shift + 1), top, coeffs))
  }

  /** The bits that all passes so far have sent, and nothing outside of the band. */
  lemma {:induction false} PassesAdd(b: Block, band: Band, top: nat, coeffs: Block, j: nat)
    requires band.Valid() && band.shift <= top <= 13 && ZeroBand(band, coeffs) && j < 64
    ensures AfterPasses(b, band, top, coeffs)[j] == if band.first <= j <= band.last then After(b, band, j) else coeffs[j]
    decreases top - band.shift
  {
    hide Sent, Pow2;
    if band.shift == top {
      FilledAt(b, band, band.first, coeffs, j);
      assert 0 * Pow2(band.shift) == 0;
    } else {
      PassesAdd(b, Band(band.first, band.last, band.shift + 1), top, coeffs, j);
    }
  }

  /** Each pass finds the values that it expects. */
  lemma ReadyForNext(b: Block, band: Band, top: nat, coeffs: Block)
    requires band.Valid() && 0 < band.shift <= top <= 13 && ZeroBand(band, coeffs)
    ensures IsBefore(b, OneBitLess(band), AfterPasses(b, band, top, coeffs))
  {
    hide Sent, Pow2, AfterPasses;
    forall k | band.first <= k <= band.last
      ensures AfterPasses(b, band, top, coeffs)[k] == Sent(b[k], band.shift) * Pow2(band.shift)
    {
      PassesAdd(b, band, top, coeffs, k);
    }
  }

  /** When no bits are left out, the band is exact. */
  lemma AllPassesAreExact(b: Block, band: Band, top: nat, coeffs: Block)
    requires band.Valid() && band.shift == 0 && top <= 13 && ZeroBand(band, coeffs)
    ensures forall j :: 0 <= j < 64 ==> AfterPasses(b, band, top, coeffs)[j] == if band.first <= j <= band.last then b[j] else coeffs[j]
  {
    forall j | 0 <= j < 64
      ensures AfterPasses(b, band, top, coeffs)[j] == if band.first <= j <= band.last then b[j] else coeffs[j]
    {
      PassesAdd(b, band, top, coeffs, j);
      assert Pow2(0) == 1;
    }
  }

  // ---------------------------------------------------------------- the blocks of a restart interval

  function AllAfter(blocks: seq<Block>, band: Band, top: nat, coeffs: seq<Block>): (after: seq<Block>)
    requires band.Valid() && band.shift <= top <= 13 && |blocks| == |coeffs|
    ensures |after| == |blocks|
  {
    seq(|blocks|, i requires 0 <= i < |blocks| => AfterPasses(blocks[i], band, top, coeffs[i]))
  }

  /** The first pass is read. */
  lemma FirstPassIsRead(coding: Coding, context: nat, t: HuffmanTable, c: CodeTable, blocks: seq<Block>, band: Band, coeffs: seq<Block>, rest: Bits)
    requires HasTable(coding, context, c) && TableOf(t, c) && Valid(t) && AllNarrow(blocks) && band.Valid() && |coeffs| == |blocks|
    requires forall i :: 0 <= i < |blocks| ==> SmallBand(blocks[i], band, band.first)
    requires InTable(t, BlocksTokens(context, blocks, band, 0)) && Writable(coding, BlocksTokens(context, blocks, band, 0))
    ensures var d := DecodeBlocks(t, band, coeffs, -1, BitsOfTokens(coding, BlocksTokens(context, blocks, band, 0)) + rest);
            d.Got? && d.value.0 == AllAfter(blocks, band, band.shift, coeffs) && d.value.1 <= 0 && d.rest == rest
  {
    hide Filled, DecodeBlocks, BlocksTokens, BitsOfTokens, Writable, InTable, TableOf, HasTable, AllNarrow, SmallBand, Valid;
    var end := BlocksAreRead(coding, context, t, c, blocks, band, coeffs, -1, rest);
    assert AllFilled(blocks, band, coeffs) == AllAfter(blocks, band, band.shift, coeffs);
  }

  /** Every refinement pass is read, from what the passes before have left; so after the pass with shift 0, the blocks are exact. */
  lemma NextPassIsRead(t: HuffmanTable, c: CodeTable, blocks: seq<Block>, band: Band, top: nat, coeffs: seq<Block>, rest: Bits)
    requires TableOf(t, c) && Valid(t) && band.Valid() && 0 < band.shift <= top <= 13 && |blocks| == |coeffs|
    requires forall i :: 0 <= i < |coeffs| ==> ZeroBand(band, coeffs[i])
    requires RefinementBlocks.AllKnown(t, ItemsOf(blocks, OneBitLess(band), 0, [])) && Emittable(c, ItemsOf(blocks, OneBitLess(band), 0, []))
    ensures var d := RefineBlocks(t, OneBitLess(band), AllAfter(blocks, band, top, coeffs), -1,
                                  BitsOfItems(c, ItemsOf(blocks, OneBitLess(band), 0, [])) + rest);
            d.Got? && d.value.0 == AllAfter(blocks, OneBitLess(band), top, coeffs) && d.value.1 <= 0 && d.rest == rest
  {
    hide RefineBlocks, ItemsOf, BitsOfItems, Emittable, RefinementBlocks.AllKnown, TableOf, Valid, Refined, IsBefore, ZeroBand;
    forall i | 0 <= i < |blocks|
      ensures IsBefore(blocks[i], OneBitLess(band), AllAfter(blocks, band, top, coeffs)[i])
    {
      ReadyForNext(blocks[i], band, top, coeffs[i]);
    }
    var end := BlocksAreRefined(t, c, blocks, OneBitLess(band), AllAfter(blocks, band, top, coeffs), -1, rest);
    assert AllRefined(blocks, OneBitLess(band), AllAfter(blocks, band, top, coeffs)) == AllAfter(blocks, OneBitLess(band), top, coeffs);
  }
}
