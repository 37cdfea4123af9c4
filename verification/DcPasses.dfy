/**
 Progressive DC scans (TokenizeProgressiveDC in lib/jpegli/entropy_coding.cc and the DC parts of DecodeDCTBlock and
 RefineDCTBlock in lib/jpegli/decode_scan.cc): the first pass codes the differences of the shifted coefficients, and each of
 the others sends one bit of every coefficient.
 */
module DcPasses {
  import opened Arithmetic
  import opened BitStrings
  import opened BitWriter
  import opened HuffmanCode
  import opened ScanWriter
  import opened BlockSymbols
  import opened BlockDecoding
  import opened BlockRoundTrip
  import opened PredictedBlocks
  import opened BlockTokens
  import opened BlockReader
  import opened HuffmanLookup
  import opened SymbolLookup
  import opened BitReader
  import opened ProgressiveBlocks

  /** A DC coefficient of the scan: its component and the table of it, and its value. */
  datatype Dc = Dc(component: nat, table: HuffmanTable, context: nat, value: int)

  /** An arithmetic shift to the right. */
  function Shifted(c: int, shift: nat): int {
    c / Pow2(shift)
  }

  // ---------------------------------------------------------------- the first pass

  function DiffOf(dc: Dc, shift: nat, lastDc: seq<int>): int
    requires dc.component < |lastDc|
  {
    Shifted(dc.value, shift) - lastDc[dc.component]
  }

  /** All components exist, all differences are within the limits of the decoder and have symbols, and all values fit 16 bits. */
  ghost predicate DcsCodable(dcs: seq<Dc>, shift: nat, lastDc: seq<int>, coding: Coding, codes: seq<CodeTable>)
    requires |codes| == |dcs|
  {
    dcs == [] ||
    var dc := dcs[0];
    && dc.component < |lastDc| && TableOf(dc.table, codes[0]) && HasTable(coding, dc.context, codes[0])
    && Abs(DiffOf(dc, shift, lastDc)) < 2048 && BitLength(Abs(DiffOf(dc, shift, lastDc))) in Symbols(dc.table)
    && FitsInt16(Shifted(dc.value, shift) * Pow2(shift))
    && DcsCodable(dcs[1..], shift, lastDc[dc.component := Shifted(dc.value, shift)], coding, codes[1..])
  }

  /** The token of a difference. */
  function DiffToken(context: nat, diff: int): Token
    requires Abs(diff) < 2048
  {
    SmallDiff(diff);
    Token(context, BitLength(Abs(diff)), ExtraBits(diff, BitLength(Abs(diff))))
  }

  lemma SmallDiff(diff: int)
    requires Abs(diff) < 2048
    ensures BitLength(Abs(diff)) <= 11 && Pow2(BitLength(Abs(diff))) <= 2048
  {
    BitLengthOfSmall(Abs(diff), 11);
    Pow2Mono(BitLength(Abs(diff)), 11);
    Pow2Small();
  }

  ghost function DcTokens(dcs: seq<Dc>, shift: nat, lastDc: seq<int>, coding: Coding, codes: seq<CodeTable>): seq<Token>
    requires |codes| == |dcs| && DcsCodable(dcs, shift, lastDc, coding, codes)
  {
    if dcs == [] then [] else
      [DiffToken(dcs[0].context, DiffOf(dcs[0], shift, lastDc))]
      + DcTokens(dcs[1..], shift, lastDc[dcs[0].component := Shifted(dcs[0].value, shift)], coding, codes[1..])
  }

  /** One DC coefficient: the new prediction. */
  function DecodeDc(t: HuffmanTable, shift: nat, lastDc: int, bits: Bits): Decoded<int>
    requires Valid(t)
  {
    match Difference(t, bits)
    case Fail => Fail
    case Got(d, rest) => if FitsInt16((d + lastDc) * Pow2(shift)) then Got(d + lastDc, rest) else Fail
  }

  /** The coefficients of a restart interval, as they are stored: shifted back. */
  function DecodeDcs(dcs: seq<Dc>, shift: nat, lastDc: seq<int>, bits: Bits): Decoded<seq<int>>
    requires forall i :: 0 <= i < |dcs| ==> dcs[i].component < |lastDc| && Valid(dcs[i].table)
  {
    if dcs == [] then Got([], bits) else
      match DecodeDc(dcs[0].table, shift, lastDc[dcs[0].component], bits)
      case Fail => Fail
      case Got(c, rest) =>
        match DecodeDcs(dcs[1..], shift, lastDc[dcs[0].component := c], rest)
        case Fail => Fail
        case Got(others, rest2) => Got([c * Pow2(shift)] + others, rest2)
  }

  /** A difference is read back. */
  lemma DiffIsRead(coding: Coding, context: nat, t: HuffmanTable, c: CodeTable, diff: int, rest: Bits)
    requires HasTable(coding, context, c) && TableOf(t, c) && Valid(t) && Abs(diff) < 2048 && BitLength(Abs(diff)) in Symbols(t)
    ensures var one := [DiffToken(context, diff)];
            Writable(coding, one) && Difference(t, BitsOfTokens(coding, one) + rest) == Got(diff, rest)
  {
    var s, e := BitLength(Abs(diff)), ExtraBits(diff, BitLength(Abs(diff)));
    SmallDiff(diff);
    ExtraOfSize(s);
    OneToken(coding, context, t, c, s, e, rest);
    if diff != 0 {
      ExtendUndoesExtraBits(diff);
    }
    hide DecodeSymbol, ReadBits, TableOf, HasTable, BitsOfTokens, Writable, HuffExtend, ExtraBits, Valid, Low, Symbols;
    if diff == 0 {
      NoLow(e, rest);
    }
  }

  lemma NoLow(e: nat, rest: Bits)
    ensures Low(e, 0) + rest == rest
  {
  }

  /** The value that a pass with this shift leaves. */
  function DcAfter(dc: Dc, shift: nat): int {
    Shifted(dc.value, shift) * Pow2(shift)
  }

  function AllDcAfter(dcs: seq<Dc>, shift: nat): (after: seq<int>)
    ensures |after| == |dcs|
  {
    seq(|dcs|, i requires 0 <= i < |dcs| => DcAfter(dcs[i], shift))
  }

  lemma FirstDcAfter(dcs: seq<Dc>, shift: nat)
    requires dcs != []
    ensures AllDcAfter(dcs, shift) == [DcAfter(dcs[0], shift)] + AllDcAfter(dcs[1..], shift)
  {
    hide DcAfter;
  }

  lemma CodableIsReadable(dcs: seq<Dc>, shift: nat, lastDc: seq<int>, coding: Coding, codes: seq<CodeTable>)
    requires |codes| == |dcs| && DcsCodable(dcs, shift, lastDc, coding, codes)
    ensures forall i :: 0 <= i < |dcs| ==> dcs[i].component < |lastDc| && Valid(dcs[i].table)
  {
    if dcs != [] {
      TableIsValid(dcs[0].table, codes[0]);
      hide TableOf, Valid;
      CodableIsReadable(dcs[1..], shift, lastDc[dcs[0].component := Shifted(dcs[0].value, shift)], coding, codes[1..]);
      assert forall i :: 0 < i < |dcs| ==> dcs[i] == dcs[1..][i - 1];
    }
  }

  /** The round trip of a restart interval of a first DC pass, with the prediction of every component. */
  lemma {:induction false} DcsAreRead(dcs: seq<Dc>, shift: nat, lastDc: seq<int>, coding: Coding, codes: seq<CodeTable>, rest: Bits)
    requires |codes| == |dcs| && DcsCodable(dcs, shift, lastDc, coding, codes)
    requires forall i :: 0 <= i < |dcs| ==> dcs[i].component < |lastDc| && Valid(dcs[i].table)
    ensures var tokens := DcTokens(dcs, shift, lastDc, coding, codes);
      && Writable(coding, tokens)
      && DecodeDcs(dcs, shift, lastDc, BitsOfTokens(coding, tokens) + rest)
           == Got(AllDcAfter(dcs, shift), rest)
  {
    hide Difference, TableOf, HasTable, BitsOfTokens, Writable, Valid, Symbols, BitLength, Shifted, Pow2, FitsInt16;
    if dcs == [] {
      BitsOfNone(coding);
      assert [] + rest == rest;
    } else {
      var dc, diff := dcs[0], DiffOf(dcs[0], shift, lastDc);
      var next := lastDc[dc.component := Shifted(dc.value, shift)];
      var one, others := [DiffToken(dc.context, diff)], DcTokens(dcs[1..], shift, next, coding, codes[1..]);
      DcsAreRead(dcs[1..], shift, next, coding, codes[1..], rest);
      DiffIsRead(coding, dc.context, dc.table, codes[0], diff, BitsOfTokens(coding, others) + rest);
      FirstDcAfter(dcs, shift);
      BitsOfSum(coding, one, others);
      Associate(BitsOfTokens(coding, one), BitsOfTokens(coding, others), rest);
    }
  }

  /** The DC coefficient of a block of a first pass, with the bit reader. */
  method DecodeDcCoefficient(dcLut: array<Entry>, br: BitReaderState, shift: nat, lastDc: int, ghost t: HuffmanTable, ghost last: nat)
      returns (ok: bool, dcCoeff: int, newLastDc: int)
    requires br.Valid() && dcLut.Length == LUT_SIZE && Refines(t, dcLut[..]) && br.Consumed() + 32 <= last
    modifies br
    ensures br.Valid() && old(br.Consumed()) <= br.Consumed() <= old(br.Consumed()) + 32 && HuffmanCode.Valid(t)
    ensures DecodeDc(t, shift, lastDc, Ahead(br.data, br.start, old(br.Consumed()), last))
         == if ok then Got(newLastDc, Ahead(br.data, br.start, br.Consumed(), last)) else Fail
    ensures if ok then dcCoeff == newLastDc * Pow2(shift) else newLastDc == lastDc
  {
    hide Refines, Difference, DifferenceLeft, HuffmanCode.Valid, Ahead, Pow2, Int16;
    newLastDc := lastDc;
    var diff;
    ok, diff := ReadDcDifference(dcLut, br, t, last);
    if !ok {
      return false, 0, lastDc;
    }
    var coeff := diff + lastDc;
    dcCoeff := Int16(coeff * Pow2(shift));
    if coeff * Pow2(shift) != dcCoeff {
      return false, dcCoeff, lastDc;
    }
    newLastDc := coeff;
  }

  // ---------------------------------------------------------------- refinement passes

  /** The bit of a coefficient that a refinement pass sends. */
  function DcBit(dc: Dc, shift: nat): bool {
    Shifted(dc.value, shift) % 2 == 1
  }

  /** The bit is or-ed into the coefficient. */
  function WithBit(c: int, shift: nat, bit: bool): int {
    if bit && c / Pow2(shift) % 2 == 0 then c + Pow2(shift) else c
  }

  /** A refinement pass adds its bit to what the pass before has left. */
  lemma DcIsRefined(dc: Dc, shift: nat)
    ensures WithBit(DcAfter(dc, shift + 1), shift, DcBit(dc, shift)) == DcAfter(dc, shift)
  {
    var p, q := Pow2(shift), Shifted(dc.value, shift);
    ShiftTwice(dc.value, p);
    var h, l := q / 2, q % 2;
    assert Pow2(shift + 1) == 2 * p && Shifted(dc.value, shift + 1) == h && q == 2 * h + l;
    OneMoreBit(h, l, p);
    EvenQuotient(h * (2 * p), p, h);
  }

  /** After the pass with shift 0 the coefficient is exact. */
  lemma DcIsExact(dc: Dc)
    ensures DcAfter(dc, 0) == dc.value
  {
    assert Pow2(0) == 1;
  }

  /** The bits of a refinement pass. */
  function DcBits(dcs: seq<Dc>, shift: nat): Bits {
    seq(|dcs|, i requires 0 <= i < |dcs| => DcBit(dcs[i], shift))
  }

  /** The coefficients with one bit each. */
  function RefineDcs(coeffs: seq<int>, shift: nat, bits: Bits): seq<int>
    requires |bits| >= |coeffs|
  {
    seq(|coeffs|, i requires 0 <= i < |coeffs| => WithBit(coeffs[i], shift, bits[i]))
  }

  /** The round trip of a refinement pass. */
  lemma DcsAreRefined(dcs: seq<Dc>, shift: nat, rest: Bits)
    ensures RefineDcs(AllDcAfter(dcs, shift + 1), shift, DcBits(dcs, shift) + rest) == AllDcAfter(dcs, shift)
  {
    hide WithBit, DcAfter, DcBit;
    forall i | 0 <= i < |dcs|
      ensures WithBit(DcAfter(dcs[i], shift + 1), shift, (DcBits(dcs, shift) + rest)[i]) == DcAfter(dcs[i], shift)
    {
      DcIsRefined(dcs[i], shift);
    }
  }
}
