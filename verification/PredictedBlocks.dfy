/**
 Blocks of a sequential scan with the prediction of their DC coefficient, as functions of the bits, and how
 far a decoder reads for them.
 */
module PredictedBlocks {
  import opened BitStrings
  import opened HuffmanCode
  import opened BlockSymbols
  import opened BlockDecoding

  /** More bits than a block can have. */
  const MANY: nat := 2048

  function WithDc(coeffs: seq<int>, dc: int): Block
    requires |coeffs| == 64
  {
    coeffs[0 := dc]
  }

  /** A block as the encoder writes it: with the difference of its DC coefficient. */
  function Residual(b: Block, lastDc: int): Block {
    WithDc(b, b[0] - lastDc)
  }

  /** The DC values after an MCU. */
  function DcAfter(kinds: seq<BlockKind>, lastDc: seq<int>, blocks: seq<Block>): (r: seq<int>)
    requires |blocks| == |kinds| && forall i :: 0 <= i < |kinds| ==> kinds[i].component < |lastDc|
    ensures |r| == |lastDc|
    decreases |kinds|
  {
    if kinds == [] then lastDc else DcAfter(kinds[1..], lastDc[kinds[0].component := blocks[0][0]], blocks[1..])
  }

  /** The number of bits that are left where the AC coefficients end, or where they are rejected. */
  function AcLeft(ac: HuffmanTable, k: nat, bits: Bits): (n: nat)
    requires Valid(ac)
    ensures n <= |bits|
    decreases 64 - k
  {
    if k > 63 then |bits| else
      match DecodeSymbol(ac, bits)
      case Fail => |bits|
      case Got(sr, bits1) =>
        var r, s := sr / 16, sr % 16;
        if s > 0 then
          if k + r > 63 || s >= DC_ALPHABET_SIZE || |bits1| < s then |bits1| else AcLeft(ac, k + r + 1, bits1[s..])
        else if r == 15 then AcLeft(ac, k + 16, bits1)
        else |bits1|
  }

  /** Unfolding of AcLeft for a symbol whose extra bits, if any, are there. */
  lemma AcLeftStep(ac: HuffmanTable, k: nat, bits: Bits, sr: nat, bits1: Bits)
    requires Valid(ac) && k <= 63 && DecodeSymbol(ac, bits) == Got(sr, bits1) && sr % 16 <= |bits1|
    ensures var r, s := sr / 16, sr % 16;
      && (s > 0 && (k + r > 63 || s >= DC_ALPHABET_SIZE) ==> AcLeft(ac, k, bits) == |bits1|)
      && (s > 0 && k + r <= 63 && s < DC_ALPHABET_SIZE ==> AcLeft(ac, k, bits) == AcLeft(ac, k + r + 1, bits1[s..]))
      && (s == 0 && r == 15 ==> AcLeft(ac, k, bits) == AcLeft(ac, k + 16, bits1))
      && (s == 0 && r < 15 ==> AcLeft(ac, k, bits) == |bits1|)
  {
    hide DecodeSymbol;
  }

  lemma AcLeftEnds(ac: HuffmanTable, k: nat, bits: Bits)
    requires Valid(ac) && (k > 63 || DecodeSymbol(ac, bits) == Fail)
    ensures AcLeft(ac, k, bits) == |bits|
  {
  }

  /** The DC difference of a block. */
  function Difference(dc: HuffmanTable, bits: Bits): Decoded<int>
    requires Valid(dc)
  {
    match DecodeSymbol(dc, bits)
    case Fail => Fail
    case Got(s, bits1) =>
      if s >= DC_ALPHABET_SIZE then Fail else if s == 0 then Got(0, bits1) else
        match ReadBits(bits1, s)
        case Fail => Fail
        case Got(v, bits2) => Got(HuffExtend(v, s), bits2)
  }

  function DifferenceLeft(dc: HuffmanTable, bits: Bits): (n: nat)
    requires Valid(dc)
    ensures n <= |bits|
  {
    match DecodeSymbol(dc, bits)
    case Fail => |bits|
    case Got(s, bits1) => if s >= DC_ALPHABET_SIZE || |bits1| < s then |bits1| else |bits1| - s
  }

  /** DecodeBlock in two parts. */
  lemma BlockParts(dc: HuffmanTable, ac: HuffmanTable, bits: Bits)
    requires Valid(dc) && Valid(ac)
    ensures DecodeBlock(dc, ac, bits) ==
            match Difference(dc, bits)
            case Fail => Fail
            case Got(d, rest) => DecodeAc(ac, 1, ZeroBlock()[0 := d], rest)
  {
    hide DecodeSymbol, DecodeAc, ReadBits, HuffExtend, ZeroBlock, Valid;
    ZeroFirst();
  }

  predicate FitsInt16(x: int) {
    -0x8000 <= x < 0x8000
  }

  /** A block of an MCU: its component, and the tables of it. */
  datatype BlockKind = BlockKind(component: nat, dc: HuffmanTable, ac: HuffmanTable)

  /** A block with the prediction of its DC coefficient added. */
  function PredictedBlock(kind: BlockKind, lastDc: int, bits: Bits): Decoded<Block>
    requires Valid(kind.dc) && Valid(kind.ac)
  {
    match Difference(kind.dc, bits)
    case Fail => Fail
    case Got(d, rest) =>
      if !FitsInt16(d + lastDc) then Fail else
        match DecodeAc(kind.ac, 1, ZeroBlock()[0 := d], rest)
        case Fail => Fail
        case Got(b, rest2) => Got(WithDc(b, d + lastDc), rest2)
  }

  function BlockLeft(kind: BlockKind, lastDc: int, bits: Bits): (n: nat)
    requires Valid(kind.dc) && Valid(kind.ac)
  {
    match Difference(kind.dc, bits)
    case Fail => DifferenceLeft(kind.dc, bits)
    case Got(d, rest) => if !FitsInt16(d + lastDc) then DifferenceLeft(kind.dc, bits) else AcLeft(kind.ac, 1, rest)
  }

  lemma {:induction false} DcStays(ac: HuffmanTable, k: nat, coeffs: Block, bits: Bits)
    requires Valid(ac) && k >= 1
    ensures DecodeAc(ac, k, coeffs, bits).Got? ==> DecodeAc(ac, k, coeffs, bits).value[0] == coeffs[0]
    decreases 64 - k
  {
    hide DecodeSymbol, ReadBits, HuffExtend, Valid;
    if k <= 63 && DecodeSymbol(ac, bits).Got? {
      var Got(sr, bits1) := DecodeSymbol(ac, bits);
      var r, s := sr / 16, sr % 16;
      if s > 0 && k + r <= 63 && ReadBits(bits1, s).Got? {
        var Got(v, bits2) := ReadBits(bits1, s);
        DcStays(ac, k + r + 1, coeffs[k + r := HuffExtend(v, s)], bits2);
      } else if s == 0 && r == 15 {
        DcStays(ac, k + 16, coeffs, bits1);
      }
    }
  }

  /** It is the decoded block with the prediction added, if the sum fits 16 bits. */
  lemma PredictedIs(kind: BlockKind, lastDc: int, bits: Bits)
    requires Valid(kind.dc) && Valid(kind.ac)
    ensures PredictedBlock(kind, lastDc, bits) ==
            match DecodeBlock(kind.dc, kind.ac, bits)
            case Fail => Fail
            case Got(b, rest) => if FitsInt16(b[0] + lastDc) then Got(WithDc(b, b[0] + lastDc), rest) else Fail
  {
    hide Difference, DecodeAc, DecodeBlock, Valid, WithDc, ZeroBlock;
    BlockParts(kind.dc, kind.ac, bits);
    if Difference(kind.dc, bits).Got? {
      var Got(d, rest) := Difference(kind.dc, bits);
      DcStays(kind.ac, 1, ZeroBlock()[0 := d], rest);
      assert ZeroBlock()[0 := d][0] == d;
    }
  }

  // ---------------------------------------------------------------- bounds

  lemma SymbolRest(t: HuffmanTable, bits: Bits)
    requires Valid(t) && DecodeSymbol(t, bits).Got?
    ensures |bits| - 16 <= |DecodeSymbol(t, bits).rest| <= |bits|
  {
    var p := FindWord(t.Sizes(), bits, 0);
    WordLength(t.Sizes(), p);
    hide Word, Distinct, Fits;
    assert |Word(t.Sizes(), p)| <= |bits|;
  }

  lemma {:induction false} AcLeftBound(ac: HuffmanTable, k: nat, bits: Bits)
    requires Valid(ac) && k <= 64
    ensures AcLeft(ac, k, bits) >= |bits| - 32 * (64 - k)
    decreases 64 - k
  {
    hide DecodeSymbol, Valid;
    if k <= 63 && DecodeSymbol(ac, bits).Got? {
      SymbolRest(ac, bits);
      var Got(sr, bits1) := DecodeSymbol(ac, bits);
      var r, s := sr / 16, sr % 16;
      if s > 0 && k + r <= 63 && s < DC_ALPHABET_SIZE && s <= |bits1| {
        AcLeftBound(ac, k + r + 1, bits1[s..]);
      } else if s == 0 && r == 15 && k + 16 <= 64 {
        AcLeftBound(ac, k + 16, bits1);
      }
    }
  }

  lemma BlockLeftBound(kind: BlockKind, lastDc: int, bits: Bits)
    requires Valid(kind.dc) && Valid(kind.ac)
    ensures |bits| - MANY <= BlockLeft(kind, lastDc, bits) <= |bits|
  {
    hide DecodeSymbol, ReadBits, HuffExtend, Valid, AcLeft;
    DifferenceRest(kind.dc, bits);
    if DecodeSymbol(kind.dc, bits).Got? {
      SymbolRest(kind.dc, bits);
    }
    if Difference(kind.dc, bits).Got? {
      AcLeftBound(kind.ac, 1, Difference(kind.dc, bits).rest);
    }
  }

  lemma {:induction false} AcRest(ac: HuffmanTable, k: nat, coeffs: Block, bits: Bits)
    requires Valid(ac)
    ensures DecodeAc(ac, k, coeffs, bits).Got? ==> |DecodeAc(ac, k, coeffs, bits).rest| == AcLeft(ac, k, bits)
    decreases 64 - k
  {
    hide DecodeSymbol, HuffExtend, Valid;
    if k <= 63 && DecodeSymbol(ac, bits).Got? {
      var Got(sr, bits1) := DecodeSymbol(ac, bits);
      var r, s := sr / 16, sr % 16;
      if s > 0 && k + r <= 63 && s < DC_ALPHABET_SIZE && s <= |bits1| {
        AcRest(ac, k + r + 1, coeffs[k + r := HuffExtend(ReadBits(bits1, s).value, s)], bits1[s..]);
      } else if s == 0 && r == 15 {
        AcRest(ac, k + 16, coeffs, bits1);
      }
    }
  }

  lemma BlockRest(kind: BlockKind, lastDc: int, bits: Bits)
    requires Valid(kind.dc) && Valid(kind.ac)
    ensures PredictedBlock(kind, lastDc, bits).Got? ==>
            |PredictedBlock(kind, lastDc, bits).rest| == BlockLeft(kind, lastDc, bits)
  {
    hide Difference, DecodeAc, AcLeft, Valid;
    if Difference(kind.dc, bits).Got? {
      var Got(d, rest) := Difference(kind.dc, bits);
      AcRest(kind.ac, 1, ZeroBlock()[0 := d], rest);
    }
  }

  lemma DifferenceRest(dc: HuffmanTable, bits: Bits)
    requires Valid(dc)
    ensures Difference(dc, bits).Got? ==> |Difference(dc, bits).rest| == DifferenceLeft(dc, bits)
  {
  }
}
