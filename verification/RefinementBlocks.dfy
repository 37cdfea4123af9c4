/**
 Refinement passes of a progressive AC scan (TokenizeACRefinementScan in lib/jpegli/entropy_coding.cc and RefineDCTBlock in
 lib/jpegli/decode_scan.cc): one more bit of every coefficient of a band. Coefficients that become nonzero are coded with the
 run of zeros before them; the others have a correction bit each, after the code of the next one or of the end of the band.
 */
module RefinementBlocks {
  import opened Arithmetic
  import opened BitStrings
  import opened BitWriter
  import opened HuffmanCode
  import opened ScanWriter
  import opened BlockCoding
  import opened BlockSymbols
  import opened BlockDecoding
  import opened BlockRoundTrip
  import opened BlockTokens
  import opened ProgressiveBlocks

  // ---------------------------------------------------------------- the decoder

  /** One more bit for a coefficient that is not zero. */
  function Corrected(c: int, shift: nat, bit: bool): int {
    if bit && c / Pow2(shift) % 2 == 0 then (if c >= 0 then c + Pow2(shift) else c - Pow2(shift)) else c
  }

  /** A position of a block, with what has been read for those before. */
  datatype Place = Place(k: nat, coeffs: Block)

  /** Over coefficients that are not zero, with their correction bits, to the zero after r others, or past the band. */
  function SkipZeros(band: Band, k: nat, r: nat, coeffs: Block, bits: Bits): Decoded<Place>
    requires band.Valid() && k <= band.last + 1
    decreases 64 - k
  {
    if k > band.last then Got(Place(k, coeffs), bits)
    else if coeffs[k] != 0 then
      if bits == [] then Fail else SkipZeros(band, k + 1, r, coeffs[k := Corrected(coeffs[k], band.shift, bits[0])], bits[1..])
    else if r == 0 then Got(Place(k, coeffs), bits)
    else SkipZeros(band, k + 1, r - 1, coeffs, bits)
  }

  /** Over all coefficients that are left. */
  function CorrectRest(band: Band, k: nat, coeffs: Block, bits: Bits): Decoded<Block>
    requires band.Valid() && k <= band.last + 1
    decreases 64 - k
  {
    if k > band.last then Got(coeffs, bits)
    else if coeffs[k] != 0 then
      if bits == [] then Fail else CorrectRest(band, k + 1, coeffs[k := Corrected(coeffs[k], band.shift, bits[0])], bits[1..])
    else CorrectRest(band, k + 1, coeffs, bits)
  }

  /** Where the symbols of a block end, and the run of ends of bands that begins there. */
  datatype Refinement = Refinement(place: Place, eobRun: int)

  function RefineFrom(ac: HuffmanTable, band: Band, k: nat, inZeroRun: bool, coeffs: Block, eobRun: int, bits: Bits): (d: Decoded<Refinement>)
    requires Valid(ac) && band.Valid() && k <= band.last + 1
    ensures d.Got? ==> d.value.place.k <= band.last + 1
    decreases 64 - k
  {
    if k > band.last then (if inZeroRun then Fail else Got(Refinement(Place(k, coeffs), eobRun), bits)) else
      match DecodeSymbol(ac, bits)
      case Fail => Fail
      case Got(sr, bits1) =>
        var r, s := sr / 16, sr % 16;
        if s > 1 then Fail
        else if s == 1 then
          match ReadBits(bits1, 1)
          case Fail => Fail
          case Got(v, bits2) =>
            match SkipZeros(band, k, r, coeffs, bits2)
            case Fail => Fail
            case Got(at, bits3) =>
              if at.k > band.last || at.k < k then Fail else
                var value := if v == 1 then Pow2(band.shift) else -Pow2(band.shift);
                RefineFrom(ac, band, at.k + 1, false, at.coeffs[at.k := value], eobRun, bits3)
        else if r == 15 then
          match SkipZeros(band, k, r, coeffs, bits1)
          case Fail => Fail
          case Got(at, bits2) =>
            if at.k > band.last || at.k < k then Fail else RefineFrom(ac, band, at.k + 1, true, at.coeffs, eobRun, bits2)
        else
          match ReadBits(bits1, r)
          case Fail => Fail
          case Got(v, bits2) => if inZeroRun then Fail else Got(Refinement(Place(k, coeffs), Pow2(r) + v), bits2)
  }

  /** One block. */
  function RefineInBand(ac: HuffmanTable, band: Band, coeffs: Block, eobRun: int, bits: Bits): Decoded<BandState>
    requires Valid(ac) && band.Valid()
  {
    match (if eobRun > 0 then Got(Refinement(Place(band.first, coeffs), eobRun), bits)
           else RefineFrom(ac, band, band.first, false, coeffs, eobRun, bits))
    case Fail => Fail
    case Got(d, rest) =>
      if d.eobRun <= 0 then Got(BandState(d.place.coeffs, d.eobRun - 1), rest) else
        match CorrectRest(band, d.place.k, d.place.coeffs, rest)
        case Fail => Fail
        case Got(refined, rest2) => Got(BandState(refined, d.eobRun - 1), rest2)
  }

  /** The blocks of a restart interval. */
  function RefineBlocks(ac: HuffmanTable, band: Band, blocks: seq<Block>, eobRun: int, bits: Bits): Decoded<(seq<Block>, int)>
    requires Valid(ac) && band.Valid()
  {
    if blocks == [] then Got(([], eobRun), bits) else
      match RefineInBand(ac, band, blocks[0], eobRun, bits)
      case Fail => Fail
      case Got(state, rest) =>
        match RefineBlocks(ac, band, blocks[1..], state.eobRun, rest)
        case Fail => Fail
        case Got((others, end), rest2) => Got(([state.coeffs] + others, end), rest2)
  }

  // ---------------------------------------------------------------- the encoder

  /** The magnitude that is known after the pass. */
  function Magnitude(b: Block, band: Band, k: nat): nat
    requires k < 64
  {
    QuotientBounds(Abs(b[k]), Pow2(band.shift));
    Abs(b[k]) / Pow2(band.shift)
  }

  /** A coefficient from k on becomes nonzero in this pass. */
  predicate HasNew(b: Block, band: Band, k: nat)
    requires band.Valid()
  {
    exists j :: k <= j <= band.last && Magnitude(b, band, j) == 1
  }

  /** A symbol with its sign bit or the length of its run, and the correction bits after it. */
  datatype Item = Item(symbol: Byte, extra: nat, corrections: Bits)

  function Zrls(r: nat, corrections: Bits): seq<Item> {
    if r > 15 then [Item(0xF0, 0, corrections)] + Zrls(r - 16, []) else []
  }

  function OneBit(b: Block, band: Band, k: nat): Bits
    requires k < 64
  {
    [Magnitude(b, band, k) % 2 == 1]
  }

  /** The items of the new coefficients from k on, after r zeros and correction bits that are not yet sent. */
  function NewItems(b: Block, band: Band, k: nat, r: nat, corrections: Bits): seq<Item>
    requires band.Valid()
    decreases 64 - k
  {
    if k > band.last || !HasNew(b, band, k) then []
    else if Magnitude(b, band, k) == 0 then NewItems(b, band, k + 1, r + 1, corrections)
    else
      var left := if r > 15 then [] else corrections;
      if Magnitude(b, band, k) > 1 then Zrls(r, corrections) + NewItems(b, band, k + 1, r % 16, left + OneBit(b, band, k))
      else Zrls(r, corrections) + [Item(16 * (r % 16) + 1, if b[k] > 0 then 1 else 0, left)] + NewItems(b, band, k + 1, 0, [])
  }

  /** The correction bits from k on. */
  function Corrections(b: Block, band: Band, k: nat, end: nat): Bits
    requires end <= 64
    decreases end - k
  {
    if k >= end then [] else (if Magnitude(b, band, k) > 1 then OneBit(b, band, k) else []) + Corrections(b, band, k + 1, end)
  }

  /** The place after the last new coefficient, from k on. */
  function AfterNew(b: Block, band: Band, k: nat): (j: nat)
    requires band.Valid() && k <= band.last + 1
    ensures k <= j <= band.last + 1
    decreases 64 - k
  {
    if k > band.last || !HasNew(b, band, k) then k else AfterNew(b, band, k + 1)
  }

  /** The correction bits after the last new coefficient. */
  function TailBits(b: Block, band: Band): Bits
    requires band.Valid()
  {
    Corrections(b, band, AfterNew(b, band, band.first), band.last + 1)
  }

  /** A run of ends of bands, with the correction bits of its blocks. */
  function EobItems(run: nat, corrections: Bits): seq<Item>
    requires run <= MAX_EOB_RUN
  {
    if run == 0 then [] else [Item(16 * RunBits(run), run - Pow2(RunBits(run)), corrections)]
  }

  /** What is sent for one block, and the run that is not yet sent, with its correction bits: no more than 255 for one run. */
  function ItemsOfOne(b: Block, band: Band, run: nat, corrections: Bits): (r: (seq<Item>, nat, Bits))
    requires band.Valid() && run < MAX_EOB_RUN
    ensures r.1 < MAX_EOB_RUN
  {
    var mine := NewItems(b, band, band.first, 0, []);
    var lead := if mine == [] then [] else EobItems(run, corrections);
    var run0, before := if mine == [] then run else 0, if mine == [] then corrections else [];
    var tail := TailBits(b, band);
    if AfterNew(b, band, band.first) > band.last then (lead + mine, run0, before)
    else if |before| + |tail| > 255 then (lead + mine + EobItems(run0, before), 1, tail)
    else if run0 + 1 == MAX_EOB_RUN then (lead + mine + EobItems(run0 + 1, before + tail), 0, [])
    else (lead + mine, run0 + 1, before + tail)
  }

  /** The items of a restart interval. */
  function ItemsOf(blocks: seq<Block>, band: Band, run: nat, corrections: Bits): seq<Item>
    requires band.Valid() && run < MAX_EOB_RUN
  {
    if blocks == [] then EobItems(run, corrections) else
      var (items, run1, after) := ItemsOfOne(blocks[0], band, run, corrections);
      items + ItemsOf(blocks[1..], band, run1, after)
  }

  // ---------------------------------------------------------------- coefficients before and after

  /** The value of a coefficient after the pass. */
  function After(b: Block, band: Band, k: nat): int
    requires k < 64
  {
    Sent(b[k], band.shift) * Pow2(band.shift)
  }

  /** The coefficients of the band are those after the pass before. */
  predicate IsBefore(b: Block, band: Band, coeffs: Block)
    requires band.Valid()
  {
    forall k :: band.first <= k <= band.last ==> coeffs[k] == Sent(b[k], band.shift + 1) * Pow2(band.shift + 1)
  }

  /** The coefficients of the band before k are those after the pass. */
  function Refined(b: Block, band: Band, k: nat, coeffs: Block): Block
    requires band.Valid()
  {
    seq(64, j requires 0 <= j < 64 => if band.first <= j < k && j <= band.last then After(b, band, j) else coeffs[j])
  }

  /** What a coefficient is before and after the pass, by its magnitude. */
  lemma BeforeAndAfter(b: Block, band: Band, k: nat, c: int)
    requires band.Valid() && k < 64 && c == Sent(b[k], band.shift + 1) * Pow2(band.shift + 1)
    ensures var m := Magnitude(b, band, k);
      && (m <= 1 <==> c == 0) && (m == 0 ==> After(b, band, k) == 0)
      && (m == 1 ==> After(b, band, k) == if b[k] > 0 then Pow2(band.shift) else -Pow2(band.shift))
      && (m > 1 ==> Corrected(c, band.shift, m % 2 == 1) == After(b, band, k))
  {
    var p, m := Pow2(band.shift), Magnitude(b, band, k);
    ShiftTwice(Abs(b[k]), p);
    assert Pow2(band.shift + 1) == 2 * p;
    assert Sent(b[k], band.shift + 1) == if b[k] < 0 then -(m / 2) else m / 2;
    assert After(b, band, k) == (if b[k] < 0 then -m else m) * p;
    SignedValues(b[k], m, p, c, After(b, band, k));
    if m > 1 {
      EvenMultiple(b[k], m, p, c);
    }
  }

  lemma SignedValues(v: int, m: int, p: int, c: int, after: int)
    requires p > 0 && m >= 0 && c == (if v < 0 then -(m / 2) else m / 2) * (2 * p) && after == (if v < 0 then -m else m) * p
    requires v == 0 ==> m == 0
    ensures (m <= 1 <==> c == 0) && (m == 0 ==> after == 0) && (m == 1 ==> after == if v > 0 then p else -p)
    ensures m > 1 ==> (v > 0 ==> c > 0) && (v < 0 ==> c < 0) && v != 0
    ensures m > 1 ==> after == if m % 2 == 0 then c else if v < 0 then c - p else c + p
  {
    var h, l := m / 2, m % 2;
    assert m == 2 * h + l;
    HalfTimes(m, h, l, p);
    MulBounds(h, 2 * p);
  }

  lemma HalfTimes(m: int, h: int, l: int, p: int)
    requires m == 2 * h + l
    ensures m * p == h * (2 * p) + l * p && -m * p == -(m * p) && -h * (2 * p) == -(h * (2 * p))
  {
  }

  lemma EvenMultiple(v: int, m: int, p: int, c: int)
    requires p > 0 && m >= 0 && c == (if v < 0 then -(m / 2) else m / 2) * (2 * p)
    ensures c / p % 2 == 0
  {
    var h := if v < 0 then -(m / 2) else m / 2;
    assert c == 2 * h * p;
    EvenQuotient(c, p, h);
  }

  // ---------------------------------------------------------------- reading one block back

  /** The zeros from k to end. */
  function ZerosIn(b: Block, band: Band, k: nat, end: nat): nat
    requires end <= 64
    decreases end - k
  {
    if k >= end then 0 else (if Magnitude(b, band, k) <= 1 then 1 else 0) + ZerosIn(b, band, k + 1, end)
  }

  /** No coefficient from k to end becomes nonzero. */
  predicate NoneNew(b: Block, band: Band, k: nat, end: nat)
    requires end <= 64
  {
    forall j :: k <= j < end ==> Magnitude(b, band, j) != 1
  }

  lemma RefinedAt(b: Block, band: Band, k: nat, coeffs: Block)
    requires band.Valid() && band.first <= k <= band.last && IsBefore(b, band, coeffs)
    ensures var m, c := Magnitude(b, band, k), Refined(b, band, k, coeffs)[k];
      && (m <= 1 <==> c == 0)
      && (m == 0 ==> Refined(b, band, k + 1, coeffs) == Refined(b, band, k, coeffs))
      && (m == 1 ==> Refined(b, band, k + 1, coeffs)
                     == Refined(b, band, k, coeffs)[k := if b[k] > 0 then Pow2(band.shift) else -Pow2(band.shift)])
      && (m > 1 ==> Refined(b, band, k + 1, coeffs) == Refined(b, band, k, coeffs)[k := Corrected(c, band.shift, m % 2 == 1)])
  {
    BeforeAndAfter(b, band, k, coeffs[k]);
    hide Magnitude, After, Corrected, Pow2, Sent;
    var x, y := Refined(b, band, k, coeffs), Refined(b, band, k + 1, coeffs);
    assert x[k] == coeffs[k];
    assert y == x[k := After(b, band, k)];
  }

  /** Over the coefficients from k to a zero at end, with their correction bits. */
  lemma {:induction false} SkipIs(b: Block, band: Band, k: nat, end: nat, r: nat, coeffs: Block, rest: Bits)
    requires band.Valid() && band.first <= k <= end <= band.last && IsBefore(b, band, coeffs)
    requires NoneNew(b, band, k, end) && Magnitude(b, band, end) <= 1 && ZerosIn(b, band, k, end) == r
    ensures SkipZeros(band, k, r, Refined(b, band, k, coeffs), Corrections(b, band, k, end) + rest)
         == Got(Place(end, Refined(b, band, end, coeffs)), rest)
    decreases end - k
  {
    hide Magnitude, Corrected, IsBefore, Refined;
    RefinedAt(b, band, k, coeffs);
    if k < end {
      SkipIs(b, band, k + 1, end, if Magnitude(b, band, k) <= 1 then r - 1 else r, coeffs, rest);
      FirstCorrection(b, band, k, end, rest);
    } else {
      assert [] + rest == rest;
    }
  }

  lemma FirstCorrection(b: Block, band: Band, k: nat, end: nat, rest: Bits)
    requires k < end <= 64
    ensures var bits := Corrections(b, band, k, end) + rest;
      if Magnitude(b, band, k) > 1
      then bits != [] && bits[0] == (Magnitude(b, band, k) % 2 == 1) && bits[1..] == Corrections(b, band, k + 1, end) + rest
      else bits == Corrections(b, band, k + 1, end) + rest
  {
    hide Magnitude;
    if Magnitude(b, band, k) > 1 {
      Associate(OneBit(b, band, k), Corrections(b, band, k + 1, end), rest);
    } else {
      assert [] + Corrections(b, band, k + 1, end) == Corrections(b, band, k + 1, end);
    }
  }

  /** Over all coefficients that are left, none of which becomes nonzero. */
  lemma {:induction false} CorrectIs(b: Block, band: Band, k: nat, coeffs: Block, rest: Bits)
    requires band.Valid() && band.first <= k <= band.last + 1 && IsBefore(b, band, coeffs) && NoneNew(b, band, k, band.last + 1)
    ensures CorrectRest(band, k, Refined(b, band, k, coeffs), Corrections(b, band, k, band.last + 1) + rest)
         == Got(Refined(b, band, band.last + 1, coeffs), rest)
    decreases 64 - k
  {
    hide Magnitude, Corrected, IsBefore, Refined;
    if k <= band.last {
      RefinedAt(b, band, k, coeffs);
      CorrectIs(b, band, k + 1, coeffs, rest);
      FirstCorrection(b, band, k, band.last + 1, rest);
    } else {
      assert [] + rest == rest;
    }
  }

  // ---------------------------------------------------------------- the bits of items

  predicate Emittable(c: CodeTable, items: seq<Item>) {
    forall i :: 0 <= i < |items| ==> CanEmit(c, items[i].symbol, items[i].extra)
  }

  function BitsOfItems(c: CodeTable, items: seq<Item>): Bits
    requires Emittable(c, items)
  {
    if items == [] then [] else
      CodeBits(c, items[0].symbol, items[0].extra) + items[0].corrections + BitsOfItems(c, items[1..])
  }

  lemma {:induction false} BitsOfJoin(c: CodeTable, a: seq<Item>, b: seq<Item>)
    requires Emittable(c, a) && Emittable(c, b)
    ensures Emittable(c, a + b) && BitsOfItems(c, a + b) == BitsOfItems(c, a) + BitsOfItems(c, b)
  {
    hide CanEmit, CodeBits;
    if a == [] {
      assert a + b == b;
    } else {
      assert (a + b)[1..] == a[1..] + b;
      BitsOfJoin(c, a[1..], b);
      Associate(CodeBits(c, a[0].symbol, a[0].extra) + a[0].corrections, BitsOfItems(c, a[1..]), BitsOfItems(c, b));
    }
  }

  /** The table has the symbol, and the extra bits are as many as it asks for. */
  predicate Known(t: HuffmanTable, item: Item)
    requires t.Shape()
  {
    item.symbol in Symbols(t) && item.extra < Pow2(NumExtraBits(item.symbol))
  }

  predicate AllKnown(t: HuffmanTable, items: seq<Item>)
    requires t.Shape()
  {
    forall i :: 0 <= i < |items| ==> Known(t, items[i])
  }

  lemma KnownIsEmittable(t: HuffmanTable, c: CodeTable, items: seq<Item>)
    requires TableOf(t, c) && t.Shape() && AllKnown(t, items)
    ensures Emittable(c, items)
  {
    hide TableOf, CanEmit, Pow2, NumExtraBits;
    forall i | 0 <= i < |items|
      ensures CanEmit(c, items[i].symbol, items[i].extra)
    {
      assert Known(t, items[i]);
      ExtraIsWord(items[i].symbol, items[i].extra);
      CanEmitAny(t, c, items[i].symbol, items[i].extra);
    }
  }

  lemma ExtraIsWord(s: Byte, e: nat)
    requires e < Pow2(NumExtraBits(s))
    ensures e < WORD
  {
    Pow2Mono(NumExtraBits(s), 16);
    Pow2Of16();
  }

  lemma KnownParts(t: HuffmanTable, a: seq<Item>, b: seq<Item>)
    requires t.Shape() && AllKnown(t, a + b)
    ensures AllKnown(t, a) && AllKnown(t, b)
  {
    hide Known;
    assert forall i :: 0 <= i < |a| ==> a[i] == (a + b)[i];
    assert forall i :: 0 <= i < |b| ==> b[i] == (a + b)[|a| + i];
  }

  /** The first item is read as its symbol, with its extra bits; the correction bits come next. */
  lemma ItemIsRead(t: HuffmanTable, c: CodeTable, item: Item, rest: Bits)
    requires TableOf(t, c) && Valid(t) && Known(t, item)
    ensures Emittable(c, [item])
    ensures var e := Low(item.extra, NumExtraBits(item.symbol)) + (item.corrections + rest);
      && DecodeSymbol(t, BitsOfItems(c, [item]) + rest) == Got(item.symbol, e)
      && ReadBits(e, NumExtraBits(item.symbol)) == Got(item.extra, item.corrections + rest)
  {
    hide DecodeSymbol, TableOf, CanEmit, CodeBits, Low, Pow2, NumExtraBits, ReadBits, Symbols, HuffmanCode.Valid;
    ExtraIsWord(item.symbol, item.extra);
    DecodeSymbolBits(t, c, item.symbol, item.extra, item.corrections + rest);
    ReadExtraBits(item.extra, NumExtraBits(item.symbol), item.corrections + rest);
    assert [item][1..] == [];
    var code := CodeBits(c, item.symbol, item.extra);
    assert BitsOfItems(c, [item]) == code + item.corrections + [];
    assert code + item.corrections + [] + rest == code + (item.corrections + rest);
  }

  // ---------------------------------------------------------------- zeros and corrections before a coefficient

  lemma {:induction false} SplitAt(b: Block, band: Band, k: nat, m: nat, end: nat)
    requires k <= m <= end <= 64
    ensures ZerosIn(b, band, k, end) == ZerosIn(b, band, k, m) + ZerosIn(b, band, m, end)
    ensures Corrections(b, band, k, end) == Corrections(b, band, k, m) + Corrections(b, band, m, end)
    decreases m - k
  {
    hide Magnitude, OneBit;
    if k < m {
      SplitAt(b, band, k + 1, m, end);
    }
  }

  /** The place of zero number n. */
  lemma {:induction false} NthZero(b: Block, band: Band, k: nat, end: nat, n: nat) returns (z: nat)
    requires k <= end <= 64 && ZerosIn(b, band, k, end) > n
    ensures k <= z < end && Magnitude(b, band, z) <= 1 && ZerosIn(b, band, k, z) == n
    ensures ZerosIn(b, band, z + 1, end) == ZerosIn(b, band, k, end) - n - 1
    decreases end - k
  {
    hide Magnitude;
    if Magnitude(b, band, k) <= 1 && n == 0 {
      z := k;
    } else {
      z := NthZero(b, band, k + 1, end, if Magnitude(b, band, k) <= 1 then n - 1 else n);
    }
  }

  /** From `from` to k: r zeros, and correction bits that all come before the sixteenth of them. */
  ghost predicate Waiting(b: Block, band: Band, from: nat, k: nat, r: nat, corrections: Bits)
    requires band.Valid()
  {
    && band.first <= from <= k <= band.last + 1 && NoneNew(b, band, from, k)
    && ZerosIn(b, band, from, k) == r && Corrections(b, band, from, k) == corrections
    && forall j :: from <= j < k && Magnitude(b, band, j) > 1 ==> ZerosIn(b, band, from, j) <= 15
  }

  lemma NothingWaits(b: Block, band: Band, k: nat)
    requires band.Valid() && band.first <= k <= band.last + 1
    ensures Waiting(b, band, k, k, 0, [])
  {
  }

  lemma OneMoreWaits(b: Block, band: Band, from: nat, k: nat, r: nat, corrections: Bits)
    requires band.Valid() && Waiting(b, band, from, k, r, corrections) && k <= band.last && Magnitude(b, band, k) != 1
    ensures Magnitude(b, band, k) == 0 ==> Waiting(b, band, from, k + 1, r + 1, corrections)
    ensures Magnitude(b, band, k) > 1 && r <= 15 ==> Waiting(b, band, from, k + 1, r, corrections + OneBit(b, band, k))
  {
    SplitAt(b, band, from, k, k + 1);
    hide Magnitude, OneBit;
    assert Corrections(b, band, k + 1, k + 1) == [] && ZerosIn(b, band, k + 1, k + 1) == 0;
    assert corrections + [] == corrections;
    assert OneBit(b, band, k) + [] == OneBit(b, band, k);
  }

  /** After sixteen zeros, nothing but zeros waits. */
  lemma SixteenZeros(b: Block, band: Band, from: nat, k: nat, r: nat, corrections: Bits) returns (z: nat)
    requires band.Valid() && Waiting(b, band, from, k, r, corrections) && r > 15
    ensures from <= z < k && NoneNew(b, band, from, z) && Magnitude(b, band, z) == 0 && ZerosIn(b, band, from, z) == 15
    ensures Corrections(b, band, from, z) == corrections && Waiting(b, band, z + 1, k, r - 16, [])
  {
    z := NthZero(b, band, from, k, 15);
    SplitAt(b, band, from, z, k);
    SplitAt(b, band, z, z + 1, k);
    hide Magnitude, OneBit;
    assert ZerosIn(b, band, z + 1, z + 1) == 0 && Corrections(b, band, z + 1, z + 1) == [];
    forall j | z + 1 <= j < k
      ensures Magnitude(b, band, j) <= 1
    {
      SplitAt(b, band, from, z, j);
      SplitAt(b, band, z, z + 1, j);
    }
    NoCorrections(b, band, z + 1, k);
    assert corrections == Corrections(b, band, from, z) + ([] + []);
  }

  lemma {:induction false} NoCorrections(b: Block, band: Band, k: nat, end: nat)
    requires k <= end <= 64 && forall j :: k <= j < end ==> Magnitude(b, band, j) <= 1
    ensures Corrections(b, band, k, end) == []
    decreases end - k
  {
    hide Magnitude;
    if k < end {
      NoCorrections(b, band, k + 1, end);
    }
  }

  // ---------------------------------------------------------------- the symbols of one block

  /** Unfolding of RefineFrom for a symbol whose extra bits have the value v. */
  lemma RefineStep(ac: HuffmanTable, band: Band, k: nat, inZeroRun: bool, coeffs: Block, eobRun: int, bits: Bits, sr: nat, bits1: Bits,
                   v: nat, bits2: Bits, at: Place, bits3: Bits)
    requires Valid(ac) && band.Valid() && k <= band.last && sr < 256 && DecodeSymbol(ac, bits) == Got(sr, bits1)
    requires ReadBits(bits1, NumExtraBits(sr)) == Got(v, bits2)
    requires sr == 0xF0 || sr % 16 == 1 ==> SkipZeros(band, k, sr / 16, coeffs, bits2) == Got(at, bits3) && k <= at.k <= band.last
    ensures sr % 16 == 1 ==>
      RefineFrom(ac, band, k, inZeroRun, coeffs, eobRun, bits)
        == RefineFrom(ac, band, at.k + 1, false, at.coeffs[at.k := if v == 1 then Pow2(band.shift) else -Pow2(band.shift)], eobRun, bits3)
    ensures sr == 0xF0 ==>
      RefineFrom(ac, band, k, inZeroRun, coeffs, eobRun, bits) == RefineFrom(ac, band, at.k + 1, true, at.coeffs, eobRun, bits3)
    ensures sr % 16 == 0 && sr < 0xF0 && !inZeroRun ==>
      RefineFrom(ac, band, k, inZeroRun, coeffs, eobRun, bits) == Got(Refinement(Place(k, coeffs), Pow2(sr / 16) + v), bits2)
  {
    hide DecodeSymbol, SkipZeros, Valid, Pow2;
    assert sr == 0xF0 ==> bits1 == bits2 by {
      if sr == 0xF0 {
        assert bits1[0..] == bits1;
      }
    }
  }

  /** The ZRL codes before a coefficient are read. */
  lemma {:induction false} ZrlsAreRead(t: HuffmanTable, c: CodeTable, b: Block, band: Band, from: nat, k: nat, r: nat, corrections: Bits, inZeroRun: bool,
                                       coeffs: Block, eobRun: int, rest: Bits) returns (next: nat, zeroRun: bool)
    requires TableOf(t, c) && Valid(t) && band.Valid() && IsBefore(b, band, coeffs) && k <= band.last
    requires Waiting(b, band, from, k, r, corrections) && AllKnown(t, Zrls(r, corrections))
    ensures Emittable(c, Zrls(r, corrections)) && Waiting(b, band, next, k, r % 16, if r > 15 then [] else corrections)
    ensures RefineFrom(t, band, from, inZeroRun, Refined(b, band, from, coeffs), eobRun, BitsOfItems(c, Zrls(r, corrections)) + rest)
         == RefineFrom(t, band, next, zeroRun, Refined(b, band, next, coeffs), eobRun, rest)
    decreases r
  {
    hide RefineFrom, SkipZeros, DecodeSymbol, ReadBits, TableOf, Distinct, Fits, CanEmit, Known, AllKnown, IsBefore, Refined, Magnitude, Corrections;
    hide ZerosIn, NoneNew, Low, BitsOfItems;
    if r <= 15 {
      next, zeroRun := from, inZeroRun;
      NoItems(c, rest);
    } else {
      var item := Item(0xF0, 0, corrections);
      var first, others := [item], Zrls(r - 16, []);
      ItemsSplit(t, c, first, others, rest);
      OneIsKnown(t, item);
      var z := SixteenZeros(b, band, from, k, r, corrections);
      ItemIsRead(t, c, item, BitsOfItems(c, others) + rest);
      SkipIs(b, band, from, z, 15, coeffs, BitsOfItems(c, others) + rest);
      RefinedAt(b, band, z, coeffs);
      RefineStep(t, band, from, inZeroRun, Refined(b, band, from, coeffs), eobRun, BitsOfItems(c, first) + (BitsOfItems(c, others) + rest), 0xF0,
                 Low(0, NumExtraBits(0xF0)) + (corrections + (BitsOfItems(c, others) + rest)), 0, corrections + (BitsOfItems(c, others) + rest),
                 Place(z, Refined(b, band, z, coeffs)), BitsOfItems(c, others) + rest);
      next, zeroRun := ZrlsAreRead(t, c, b, band, z + 1, k, r - 16, [], true, coeffs, eobRun, rest);
    }
  }

  /** A new coefficient is read, with the zeros and the correction bits before it. */
  lemma NewIsRead(t: HuffmanTable, c: CodeTable, b: Block, band: Band, from: nat, k: nat, r: nat, corrections: Bits, inZeroRun: bool,
                  coeffs: Block, eobRun: int, rest: Bits)
    requires TableOf(t, c) && Valid(t) && band.Valid() && IsBefore(b, band, coeffs) && k <= band.last && Magnitude(b, band, k) == 1
    requires r <= 15 && Waiting(b, band, from, k, r, corrections)
    requires Known(t, Item(16 * r + 1, if b[k] > 0 then 1 else 0, corrections))
    ensures var item := Item(16 * r + 1, if b[k] > 0 then 1 else 0, corrections);
      && Emittable(c, [item])
      && RefineFrom(t, band, from, inZeroRun, Refined(b, band, from, coeffs), eobRun, BitsOfItems(c, [item]) + rest)
           == RefineFrom(t, band, k + 1, false, Refined(b, band, k + 1, coeffs), eobRun, rest)
  {
    hide RefineFrom, SkipZeros, DecodeSymbol, ReadBits, TableOf, HuffmanCode.Valid, CanEmit, Known, IsBefore, Refined, Magnitude, Corrections, ZerosIn, NoneNew, Low, BitsOfItems;
    var item := Item(16 * r + 1, if b[k] > 0 then 1 else 0, corrections);
    ItemIsRead(t, c, item, rest);
    SkipIs(b, band, from, k, r, coeffs, rest);
    RefinedAt(b, band, k, coeffs);
    RefineStep(t, band, from, inZeroRun, Refined(b, band, from, coeffs), eobRun, BitsOfItems(c, [item]) + rest, item.symbol,
               Low(item.extra, NumExtraBits(item.symbol)) + (corrections + rest), item.extra, corrections + rest,
               Place(k, Refined(b, band, k, coeffs)), rest);
  }

  lemma NewStep(b: Block, band: Band, k: nat, r: nat, corrections: Bits)
    requires band.Valid() && k <= band.last && HasNew(b, band, k)
    ensures var m, left := Magnitude(b, band, k), if r > 15 then [] else corrections;
      && (m != 1 ==> HasNew(b, band, k + 1))
      && (m == 0 ==> NewItems(b, band, k, r, corrections) == NewItems(b, band, k + 1, r + 1, corrections))
      && (m > 1 ==> NewItems(b, band, k, r, corrections) == Zrls(r, corrections) + NewItems(b, band, k + 1, r % 16, left + OneBit(b, band, k)))
      && (m == 1 ==>
            var item := Item(16 * (r % 16) + 1, if b[k] > 0 then 1 else 0, left);
            NewItems(b, band, k, r, corrections) == Zrls(r, corrections) + [item] + NewItems(b, band, k + 1, 0, []))
    ensures AfterNew(b, band, k) == AfterNew(b, band, k + 1)
  {
    hide Magnitude, OneBit;
  }

  lemma NoNewItems(b: Block, band: Band, k: nat, r: nat, corrections: Bits)
    requires band.Valid() && k <= band.last + 1 && !HasNew(b, band, k)
    ensures NewItems(b, band, k, r, corrections) == [] && AfterNew(b, band, k) == k && NoneNew(b, band, k, band.last + 1)
  {
  }

  /** All new coefficients from k on are read. */
  lemma {:induction false} AllNewAreRead(t: HuffmanTable, c: CodeTable, b: Block, band: Band, from: nat, k: nat, r: nat, corrections: Bits, inZeroRun: bool,
                                         coeffs: Block, eobRun: int, rest: Bits)
    requires TableOf(t, c) && Valid(t) && band.Valid() && IsBefore(b, band, coeffs) && k <= band.last && HasNew(b, band, k)
    requires band.first <= k && Waiting(b, band, from, k, r, corrections) && AllKnown(t, NewItems(b, band, k, r, corrections))
    ensures Emittable(c, NewItems(b, band, k, r, corrections))
    ensures var end := AfterNew(b, band, k);
            RefineFrom(t, band, from, inZeroRun, Refined(b, band, from, coeffs), eobRun, BitsOfItems(c, NewItems(b, band, k, r, corrections)) + rest)
              == RefineFrom(t, band, end, false, Refined(b, band, end, coeffs), eobRun, rest)
    decreases 64 - k
  {
    hide RefineFrom, TableOf, Distinct, Fits, Emittable, AllKnown, Known, IsBefore, Refined, Magnitude, NewItems, AfterNew, BitsOfItems, Zrls, HasNew, Waiting, OneBit;
    NewStep(b, band, k, r, corrections);
    KnownIsEmittable(t, c, NewItems(b, band, k, r, corrections));
    var m, left := Magnitude(b, band, k), if r > 15 then [] else corrections;
    if m == 0 {
      OneMoreWaits(b, band, from, k, r, corrections);
      LastIsNotLeft(b, band, k);
      AllNewAreRead(t, c, b, band, from, k + 1, r + 1, corrections, inZeroRun, coeffs, eobRun, rest);
    } else {
      var zrls := Zrls(r, corrections);
      if m > 1 {
        var others := NewItems(b, band, k + 1, r % 16, left + OneBit(b, band, k));
        ItemsSplit(t, c, zrls, others, rest);
        var next, zeroRun := ZrlsAreRead(t, c, b, band, from, k, r, corrections, inZeroRun, coeffs, eobRun, BitsOfItems(c, others) + rest);
        OneMoreWaits(b, band, next, k, r % 16, left);
        LastIsNotLeft(b, band, k);
        AllNewAreRead(t, c, b, band, next, k + 1, r % 16, left + OneBit(b, band, k), zeroRun, coeffs, eobRun, rest);
      } else {
        var item, others := Item(16 * (r % 16) + 1, if b[k] > 0 then 1 else 0, left), NewItems(b, band, k + 1, 0, []);
        ItemsSplit(t, c, zrls + [item], others, rest);
        ItemsSplit(t, c, zrls, [item], BitsOfItems(c, others) + rest);
        var next, zeroRun := ZrlsAreRead(t, c, b, band, from, k, r, corrections, inZeroRun, coeffs, eobRun,
                                         BitsOfItems(c, [item]) + (BitsOfItems(c, others) + rest));
        OneIsKnown(t, item);
        NewIsRead(t, c, b, band, next, k, r % 16, left, zeroRun, coeffs, eobRun, BitsOfItems(c, others) + rest);
        if HasNew(b, band, k + 1) {
          NothingWaits(b, band, k + 1);
          LastIsNotLeft(b, band, k);
          AllNewAreRead(t, c, b, band, k + 1, k + 1, 0, [], false, coeffs, eobRun, rest);
        } else {
          NoNewItems(b, band, k + 1, 0, []);
          NoItems(c, rest);
        }
      }
    }
  }

  lemma NoItems(c: CodeTable, rest: Bits)
    ensures Emittable(c, []) && BitsOfItems(c, []) + rest == rest
  {
    assert [] + rest == rest;
  }

  lemma OneIsKnown(t: HuffmanTable, item: Item)
    requires t.Shape() && AllKnown(t, [item])
    ensures Known(t, item)
  {
    assert [item][0] == item;
  }

  lemma LastIsNotLeft(b: Block, band: Band, k: nat)
    requires band.Valid() && k <= band.last && HasNew(b, band, k + 1)
    ensures k + 1 <= band.last
  {
  }

  lemma ItemsSplit(t: HuffmanTable, c: CodeTable, a: seq<Item>, b: seq<Item>, rest: Bits)
    requires TableOf(t, c) && t.Shape() && AllKnown(t, a + b)
    ensures AllKnown(t, a) && AllKnown(t, b) && Emittable(c, a) && Emittable(c, b) && Emittable(c, a + b)
    ensures BitsOfItems(c, a + b) + rest == BitsOfItems(c, a) + (BitsOfItems(c, b) + rest)
  {
    hide BitsOfItems, TableOf, Known, CanEmit;
    KnownParts(t, a, b);
    KnownIsEmittable(t, c, a);
    KnownIsEmittable(t, c, b);
    BitsOfJoin(c, a, b);
    Associate(BitsOfItems(c, a), BitsOfItems(c, b), rest);
  }

  // ---------------------------------------------------------------- ends of bands

  lemma EobIsRead(t: HuffmanTable, c: CodeTable, band: Band, k: nat, run: nat, corrections: Bits, coeffs: Block, eobRun: int, rest: Bits)
    requires TableOf(t, c) && Valid(t) && band.Valid() && k <= band.last && 0 < run <= MAX_EOB_RUN && AllKnown(t, EobItems(run, corrections))
    ensures Emittable(c, EobItems(run, corrections))
    ensures RefineFrom(t, band, k, false, coeffs, eobRun, BitsOfItems(c, EobItems(run, corrections)) + rest)
         == Got(Refinement(Place(k, coeffs), run), corrections + rest)
  {
    hide RefineFrom, DecodeSymbol, ReadBits, TableOf, Distinct, Fits, CanEmit, Known, Low, Pow2, BitsOfItems, NumExtraBits;
    var n := RunBits(run);
    var item := Item(16 * n, run - Pow2(n), corrections);
    assert EobItems(run, corrections) == [item];
    RunIsShort(run);
    OneIsKnown(t, item);
    ItemIsRead(t, c, item, rest);
    RefineStep(t, band, k, false, coeffs, eobRun, BitsOfItems(c, [item]) + rest, 16 * n, Low(item.extra, n) + (corrections + rest),
               item.extra, corrections + rest, Place(k, coeffs), []);
  }

  lemma {:induction false} FewCorrections(b: Block, band: Band, k: nat, end: nat)
    requires k <= end <= 64
    ensures |Corrections(b, band, k, end)| <= end - k
    decreases end - k
  {
    hide Magnitude;
    if k < end {
      FewCorrections(b, band, k + 1, end);
    }
  }

  lemma {:induction false} NoneAfterNew(b: Block, band: Band, k: nat)
    requires band.Valid() && k <= band.last + 1
    ensures NoneNew(b, band, AfterNew(b, band, k), band.last + 1)
    decreases 64 - k
  {
    hide Magnitude;
    if k <= band.last && HasNew(b, band, k) {
      NoneAfterNew(b, band, k + 1);
    }
  }

  lemma {:induction false} SomeNewItems(b: Block, band: Band, k: nat, r: nat, corrections: Bits)
    requires band.Valid() && k <= band.last + 1
    ensures NewItems(b, band, k, r, corrections) != [] <==> HasNew(b, band, k)
    decreases 64 - k
  {
    if HasNew(b, band, k) {
      NewStep(b, band, k, r, corrections);
      hide NewItems, Magnitude, Zrls;
      if Magnitude(b, band, k) != 1 {
        SomeNewItems(b, band, k + 1, if Magnitude(b, band, k) == 0 then r + 1 else r % 16,
                     if Magnitude(b, band, k) == 0 then corrections else (if r > 15 then [] else corrections) + OneBit(b, band, k));
      }
    } else {
      NoNewItems(b, band, k, r, corrections);
    }
  }

  /** The correction bits of blocks in which nothing becomes nonzero. */
  function Tails(blocks: seq<Block>, band: Band): Bits
    requires band.Valid()
  {
    if blocks == [] then [] else TailBits(blocks[0], band) + Tails(blocks[1..], band)
  }

  predicate AllOld(blocks: seq<Block>, band: Band)
    requires band.Valid()
  {
    forall i :: 0 <= i < |blocks| ==> !HasNew(blocks[i], band, band.first)
  }

  lemma NoItem(band: Band, run: nat, corrections: Bits)
    requires band.Valid() && run < MAX_EOB_RUN
    ensures EobItems(0, corrections) == [] && ItemsOf([], band, run, corrections) == EobItems(run, corrections)
  {
  }

  lemma FirstItems(blocks: seq<Block>, band: Band, run: nat, corrections: Bits)
    requires band.Valid() && run < MAX_EOB_RUN && blocks != []
    ensures var (items, run1, after) := ItemsOfOne(blocks[0], band, run, corrections);
            ItemsOf(blocks, band, run, corrections) == items + ItemsOf(blocks[1..], band, run1, after)
  {
  }

  /** What ItemsOfOne says, by whether a coefficient becomes nonzero. */
  lemma OneBlock(b: Block, band: Band, run: nat, corrections: Bits)
    requires band.Valid() && run < MAX_EOB_RUN
    ensures ItemsOfOne(b, band, 0, []) ==
            if AfterNew(b, band, band.first) > band.last then (NewItems(b, band, band.first, 0, []), 0, [])
            else (NewItems(b, band, band.first, 0, []), 1, TailBits(b, band))
    ensures HasNew(b, band, band.first) ==>
            var (items, run1, after) := ItemsOfOne(b, band, 0, []);
            ItemsOfOne(b, band, run, corrections) == (EobItems(run, corrections) + items, run1, after)
    ensures !HasNew(b, band, band.first) ==>
            var tail := TailBits(b, band);
            ItemsOfOne(b, band, run, corrections) ==
            if |corrections| + |tail| > 255 then (EobItems(run, corrections), 1, tail)
            else if run + 1 == MAX_EOB_RUN then (EobItems(run + 1, corrections + tail), 0, [])
            else ([], run + 1, corrections + tail)
  {
    NoItem(band, 0, []);
    SomeNewItems(b, band, band.first, 0, []);
    FewCorrections(b, band, AfterNew(b, band, band.first), band.last + 1);
    if !HasNew(b, band, band.first) {
      NoNewItems(b, band, band.first, 0, []);
    }
    hide NewItems, HasNew, EobItems, AfterNew;
    var mine, tail := NewItems(b, band, band.first, 0, []), TailBits(b, band);
    assert [] + mine == mine && [] + tail == tail && mine + [] == mine;
    assert EobItems(run, corrections) + mine + [] == EobItems(run, corrections) + mine;
    assert [] + EobItems(run, corrections) == EobItems(run, corrections);
    assert [] + EobItems(run + 1, corrections + tail) == EobItems(run + 1, corrections + tail);
  }

  lemma TailsNext(blocks: seq<Block>, band: Band, j: nat, corrections: Bits)
    requires band.Valid() && blocks != [] && j < |blocks|
    ensures corrections + Tails(blocks[..j + 1], band) == corrections + TailBits(blocks[0], band) + Tails(blocks[1..][..j], band)
  {
    hide TailBits;
    assert blocks[..j + 1][0] == blocks[0] && blocks[..j + 1][1..] == blocks[1..][..j];
    Associate(corrections, TailBits(blocks[0], band), Tails(blocks[1..][..j], band));
  }

  lemma NoTails(blocks: seq<Block>, band: Band, corrections: Bits)
    requires band.Valid()
    ensures corrections + Tails(blocks[..0], band) == corrections && blocks[0..] == blocks
  {
    assert corrections + [] == corrections;
  }

  /** A run that is not yet sent goes on over blocks in which nothing becomes nonzero, and is then one item, with the
      correction bits of all its blocks. */
  lemma {:induction false} RunAbsorbs(blocks: seq<Block>, band: Band, run: nat, corrections: Bits) returns (j: nat)
    requires band.Valid() && 0 < run < MAX_EOB_RUN
    ensures j <= |blocks| && run + j <= MAX_EOB_RUN && AllOld(blocks[..j], band)
    ensures ItemsOf(blocks, band, run, corrections)
         == EobItems(run + j, corrections + Tails(blocks[..j], band)) + ItemsOf(blocks[j..], band, 0, [])
    decreases |blocks|
  {
    hide ItemsOfOne, TailBits, HasNew, EobItems, ItemsOf, Tails, AfterNew, NewItems;
    j := 0;
    NoTails(blocks, band, corrections);
    NoItem(band, 0, []);
    NoItem(band, run, corrections);
    if blocks == [] {
      assert EobItems(run, corrections) + [] == EobItems(run, corrections);
    } else {
      var b, tail := blocks[0], TailBits(blocks[0], band);
      OneBlock(b, band, run, corrections);
      FirstItems(blocks, band, run, corrections);
      FirstItems(blocks, band, 0, []);
      TailsNext(blocks, band, 0, corrections);
      NoTails(blocks[1..], band, corrections + tail);
      if HasNew(b, band, band.first) {
        var (items, run1, after) := ItemsOfOne(b, band, 0, []);
        Associate(EobItems(run, corrections), items, ItemsOf(blocks[1..], band, run1, after));
      } else if |corrections| + |tail| > 255 {
        OldBegins(blocks, band);
      } else {
        if run + 1 == MAX_EOB_RUN {
          j := 1;
        } else {
          j := RunAbsorbs(blocks[1..], band, run + 1, corrections + tail);
          TailsNext(blocks, band, j, corrections);
          assert [] + ItemsOf(blocks[1..], band, run + 1, corrections + tail) == ItemsOf(blocks[1..], band, run + 1, corrections + tail);
          assert blocks[1..][j..] == blocks[j + 1..];
          OldPrefix(blocks, band, j);
          j := j + 1;
        }
        OldPrefix(blocks, band, 0);
      }
    }
  }

  lemma OldPrefix(blocks: seq<Block>, band: Band, j: nat)
    requires band.Valid() && j < |blocks| && !HasNew(blocks[0], band, band.first) && AllOld(blocks[1..][..j], band)
    ensures AllOld(blocks[..j + 1], band)
  {
    hide HasNew;
    var some, others := blocks[..j + 1], blocks[1..][..j];
    forall i | 0 <= i < |some|
      ensures !HasNew(some[i], band, band.first)
    {
      if i > 0 {
        assert some[i] == others[i - 1];
      }
    }
  }

  /** A block in which nothing becomes nonzero begins a run. */
  lemma OldBegins(blocks: seq<Block>, band: Band)
    requires band.Valid() && blocks != [] && !HasNew(blocks[0], band, band.first)
    ensures ItemsOf(blocks, band, 0, []) == ItemsOf(blocks[1..], band, 1, TailBits(blocks[0], band))
  {
    OneBlock(blocks[0], band, 0, []);
    FirstItems(blocks, band, 0, []);
    NoNewItems(blocks[0], band, band.first, 0, []);
    hide ItemsOf, ItemsOfOne, TailBits;
    var others := ItemsOf(blocks[1..], band, 1, TailBits(blocks[0], band));
    assert [] + others == others;
  }

  // ---------------------------------------------------------------- reading the blocks back

  /** The new coefficients of a block. */
  lemma SymbolsAreRead(t: HuffmanTable, c: CodeTable, b: Block, band: Band, coeffs: Block, eobRun: int, rest: Bits)
    requires TableOf(t, c) && Valid(t) && band.Valid() && IsBefore(b, band, coeffs) && AllKnown(t, NewItems(b, band, band.first, 0, []))
    ensures var end, items := AfterNew(b, band, band.first), NewItems(b, band, band.first, 0, []);
      && Emittable(c, items)
      && RefineFrom(t, band, band.first, false, coeffs, eobRun, BitsOfItems(c, items) + rest)
           == RefineFrom(t, band, end, false, Refined(b, band, end, coeffs), eobRun, rest)
  {
    hide RefineFrom, TableOf, Distinct, Fits, AllKnown, IsBefore, NewItems, AfterNew, BitsOfItems, Magnitude, After;
    assert Refined(b, band, band.first, coeffs) == coeffs;
    if HasNew(b, band, band.first) {
      hide Refined;
      NothingWaits(b, band, band.first);
      AllNewAreRead(t, c, b, band, band.first, band.first, 0, [], false, coeffs, eobRun, rest);
    } else {
      NoNewItems(b, band, band.first, 0, []);
      NoItems(c, rest);
    }
  }

  lemma BlockOfSymbols(ac: HuffmanTable, band: Band, coeffs: Block, eobRun: int, bits: Bits, d: Refinement, rest: Bits)
    requires Valid(ac) && band.Valid() && d.place.k <= band.last + 1
    requires if eobRun > 0 then d == Refinement(Place(band.first, coeffs), eobRun) && rest == bits
             else RefineFrom(ac, band, band.first, false, coeffs, eobRun, bits) == Got(d, rest)
    ensures d.eobRun <= 0 ==> RefineInBand(ac, band, coeffs, eobRun, bits) == Got(BandState(d.place.coeffs, d.eobRun - 1), rest)
    ensures d.eobRun > 0 ==>
      RefineInBand(ac, band, coeffs, eobRun, bits) ==
      match CorrectRest(band, d.place.k, d.place.coeffs, rest)
      case Fail => Fail
      case Got(refined, rest2) => Got(BandState(refined, d.eobRun - 1), rest2)
  {
    hide RefineFrom, CorrectRest, Valid;
  }

  lemma RefineEnds(ac: HuffmanTable, band: Band, coeffs: Block, eobRun: int, bits: Bits)
    requires Valid(ac) && band.Valid()
    ensures RefineFrom(ac, band, band.last + 1, false, coeffs, eobRun, bits) == Got(Refinement(Place(band.last + 1, coeffs), eobRun), bits)
  {
  }

  /** A block, and the run that may begin at its end. */
  lemma BlockIsRefined(t: HuffmanTable, c: CodeTable, b: Block, blocks: seq<Block>, band: Band, coeffs: Block, eobRun: int, items: seq<Item>, rest: Bits)
      returns (j: nat, others: seq<Item>, e: int)
    requires TableOf(t, c) && Valid(t) && band.Valid() && IsBefore(b, band, coeffs) && eobRun <= 0
    requires items == ItemsOf([b] + blocks, band, 0, []) && AllKnown(t, items) && Emittable(c, items)
    ensures j <= |blocks| && AllOld(blocks[..j], band) && others == ItemsOf(blocks[j..], band, 0, [])
    ensures AllKnown(t, others) && Emittable(c, others) && (e == j || (j == 0 && e <= 0))
    ensures RefineInBand(t, band, coeffs, eobRun, BitsOfItems(c, items) + rest)
         == Got(BandState(Refined(b, band, band.last + 1, coeffs), e), Tails(blocks[..j], band) + (BitsOfItems(c, others) + rest))
  {
    hide RefineFrom, RefineInBand, CorrectRest, TableOf, Distinct, Fits, AllKnown, Emittable, IsBefore, NewItems, AfterNew, BitsOfItems, Magnitude, Refined;
    hide ItemsOf, ItemsOfOne, TailBits, EobItems, Tails, HasNew, NoneNew, Corrections;
    var mine, end := NewItems(b, band, band.first, 0, []), AfterNew(b, band, band.first);
    OneBlock(b, band, 0, []);
    FirstItems([b] + blocks, band, 0, []);
    assert ([b] + blocks)[1..] == blocks;
    if end > band.last {
      j, others, e := 0, ItemsOf(blocks, band, 0, []), eobRun - 1;
      ItemsSplit(t, c, mine, others, rest);
      SymbolsAreRead(t, c, b, band, coeffs, eobRun, BitsOfItems(c, others) + rest);
      RefineEnds(t, band, Refined(b, band, end, coeffs), eobRun, BitsOfItems(c, others) + rest);
      BlockOfSymbols(t, band, coeffs, eobRun, BitsOfItems(c, items) + rest,
                     Refinement(Place(end, Refined(b, band, end, coeffs)), eobRun), BitsOfItems(c, others) + rest);
      NoTails(blocks, band, []);
      assert [] + (BitsOfItems(c, others) + rest) == BitsOfItems(c, others) + rest;
    } else {
      var tail := TailBits(b, band);
      ItemsSplit(t, c, mine, ItemsOf(blocks, band, 1, tail), rest);
      SymbolsAreRead(t, c, b, band, coeffs, eobRun, BitsOfItems(c, ItemsOf(blocks, band, 1, tail)) + rest);
      j, others := RunIsRefined(t, c, b, blocks, band, Refined(b, band, end, coeffs), eobRun, rest);
      e := j;
      var bits := Tails(blocks[..j], band) + (BitsOfItems(c, others) + rest);
      BlockOfSymbols(t, band, coeffs, eobRun, BitsOfItems(c, items) + rest,
                     Refinement(Place(end, Refined(b, band, end, coeffs)), 1 + j), tail + bits);
      NoneAfterNew(b, band, band.first);
      TailIs(b, band);
      CorrectIs(b, band, end, coeffs, bits);
    }
  }

  lemma TailIs(b: Block, band: Band)
    requires band.Valid()
    ensures TailBits(b, band) == Corrections(b, band, AfterNew(b, band, band.first), band.last + 1)
  {
  }

  /** The end of the band of a block, whose run may cover more blocks. */
  lemma RunIsRefined(t: HuffmanTable, c: CodeTable, b: Block, blocks: seq<Block>, band: Band, coeffs: Block, eobRun: int, rest: Bits)
      returns (j: nat, others: seq<Item>)
    requires TableOf(t, c) && Valid(t) && band.Valid() && AfterNew(b, band, band.first) <= band.last
    requires AllKnown(t, ItemsOf(blocks, band, 1, TailBits(b, band))) && Emittable(c, ItemsOf(blocks, band, 1, TailBits(b, band)))
    ensures j <= |blocks| && AllOld(blocks[..j], band) && others == ItemsOf(blocks[j..], band, 0, [])
    ensures AllKnown(t, others) && Emittable(c, others)
    ensures var end, tail := AfterNew(b, band, band.first), TailBits(b, band);
            RefineFrom(t, band, end, false, coeffs, eobRun, BitsOfItems(c, ItemsOf(blocks, band, 1, tail)) + rest)
              == Got(Refinement(Place(end, coeffs), 1 + j), tail + (Tails(blocks[..j], band) + (BitsOfItems(c, others) + rest)))
  {
    hide RefineFrom, TableOf, Distinct, Fits, AllKnown, Emittable, AfterNew, BitsOfItems, ItemsOf, TailBits, EobItems, Tails, HasNew;
    var end, tail := AfterNew(b, band, band.first), TailBits(b, band);
    j := RunAbsorbs(blocks, band, 1, tail);
    others := ItemsOf(blocks[j..], band, 0, []);
    var corrections := tail + Tails(blocks[..j], band);
    ItemsSplit(t, c, EobItems(1 + j, corrections), others, rest);
    EobIsRead(t, c, band, end, 1 + j, corrections, coeffs, eobRun, BitsOfItems(c, others) + rest);
    Associate(tail, Tails(blocks[..j], band), BitsOfItems(c, others) + rest);
  }

  /** The blocks of a restart interval have the values from the pass before. */
  predicate AllBefore(blocks: seq<Block>, band: Band, coeffs: seq<Block>)
    requires band.Valid() && |blocks| == |coeffs|
  {
    forall i :: 0 <= i < |blocks| ==> IsBefore(blocks[i], band, coeffs[i])
  }

  function AllRefined(blocks: seq<Block>, band: Band, coeffs: seq<Block>): (refined: seq<Block>)
    requires band.Valid() && |blocks| == |coeffs|
    ensures |refined| == |blocks|
  {
    seq(|blocks|, i requires 0 <= i < |blocks| => Refined(blocks[i], band, band.last + 1, coeffs[i]))
  }

  lemma FirstBefore(blocks: seq<Block>, band: Band, coeffs: seq<Block>)
    requires band.Valid() && |blocks| == |coeffs| > 0 && AllBefore(blocks, band, coeffs)
    ensures IsBefore(blocks[0], band, coeffs[0]) && AllBefore(blocks[1..], band, coeffs[1..])
    ensures AllRefined(blocks, band, coeffs)
         == [Refined(blocks[0], band, band.last + 1, coeffs[0])] + AllRefined(blocks[1..], band, coeffs[1..])
  {
    hide IsBefore, Refined;
  }

  lemma OldBlock(ac: HuffmanTable, b: Block, band: Band, coeffs: Block, eobRun: int, rest: Bits)
    requires Valid(ac) && band.Valid() && IsBefore(b, band, coeffs) && !HasNew(b, band, band.first) && eobRun > 0
    ensures RefineInBand(ac, band, coeffs, eobRun, TailBits(b, band) + rest)
         == Got(BandState(Refined(b, band, band.last + 1, coeffs), eobRun - 1), rest)
  {
    hide CorrectRest, Corrections, After, Magnitude, IsBefore, HasNew, NewItems, AfterNew, NoneNew, TailBits, RefineInBand, Valid;
    NoNewItems(b, band, band.first, 0, []);
    TailIs(b, band);
    assert Refined(b, band, band.first, coeffs) == coeffs;
    CorrectIs(b, band, band.first, coeffs, rest);
    BlockOfSymbols(ac, band, coeffs, eobRun, TailBits(b, band) + rest, Refinement(Place(band.first, coeffs), eobRun), TailBits(b, band) + rest);
  }

  /** The blocks that a run covers need their correction bits only. */
  lemma {:induction false} SkipOld(ac: HuffmanTable, blocks: seq<Block>, band: Band, coeffs: seq<Block>, j: nat, rest: Bits)
    requires Valid(ac) && band.Valid() && |blocks| == |coeffs| && AllBefore(blocks, band, coeffs) && j <= |blocks| && AllOld(blocks[..j], band)
    ensures RefineBlocks(ac, band, coeffs, j, Tails(blocks[..j], band) + rest) ==
            match RefineBlocks(ac, band, coeffs[j..], 0, rest)
            case Fail => Fail
            case Got(d, rest2) => Got((AllRefined(blocks[..j], band, coeffs[..j]) + d.0, d.1), rest2)
    decreases j
  {
    hide RefineInBand, Valid, Tails, AllBefore, AllRefined, IsBefore, Refined, HasNew, TailBits;
    if j == 0 {
      NoTails(blocks, band, []);
      assert Tails(blocks[..0], band) == [] && [] + rest == rest && coeffs[0..] == coeffs;
      assert AllRefined(blocks[..0], band, coeffs[..0]) == [];
      match RefineBlocks(ac, band, coeffs, 0, rest)
      case Fail =>
      case Got(d, rest2) => assert [] + d.0 == d.0 && d == (d.0, d.1);
    } else {
      FirstBefore(blocks, band, coeffs);
      OldParts(blocks, band, j);
      var tails := Tails(blocks[1..][..j - 1], band);
      OldBlock(ac, blocks[0], band, coeffs[0], j, tails + rest);
      SkipOld(ac, blocks[1..], band, coeffs[1..], j - 1, rest);
      TailsNext(blocks, band, j - 1, []);
      assert [] + Tails(blocks[..j], band) == Tails(blocks[..j], band) && [] + TailBits(blocks[0], band) == TailBits(blocks[0], band);
      Associate(TailBits(blocks[0], band), tails, rest);
      PrefixRefined(blocks, band, coeffs, j);
      assert coeffs[1..][j - 1..] == coeffs[j..];
      match RefineBlocks(ac, band, coeffs[j..], 0, rest)
      case Fail =>
      case Got(d, rest2) =>
        Associate([Refined(blocks[0], band, band.last + 1, coeffs[0])], AllRefined(blocks[1..][..j - 1], band, coeffs[1..][..j - 1]), d.0);
    }
  }

  lemma OldParts(blocks: seq<Block>, band: Band, j: nat)
    requires band.Valid() && 0 < j <= |blocks| && AllOld(blocks[..j], band)
    ensures !HasNew(blocks[0], band, band.first) && AllOld(blocks[1..][..j - 1], band)
  {
    hide HasNew;
    var some, others := blocks[..j], blocks[1..][..j - 1];
    assert some[0] == blocks[0];
    assert forall i :: 0 <= i < |others| ==> others[i] == some[i + 1];
  }

  lemma PrefixRefined(blocks: seq<Block>, band: Band, coeffs: seq<Block>, j: nat)
    requires band.Valid() && |blocks| == |coeffs| && 0 < j <= |blocks|
    ensures AllRefined(blocks[..j], band, coeffs[..j])
         == [Refined(blocks[0], band, band.last + 1, coeffs[0])] + AllRefined(blocks[1..][..j - 1], band, coeffs[1..][..j - 1])
  {
    hide Refined;
  }

  lemma RefinedParts(blocks: seq<Block>, band: Band, coeffs: seq<Block>, j: nat)
    requires band.Valid() && |blocks| == |coeffs| && j <= |blocks| && AllBefore(blocks, band, coeffs)
    ensures AllRefined(blocks, band, coeffs) == AllRefined(blocks[..j], band, coeffs[..j]) + AllRefined(blocks[j..], band, coeffs[j..])
    ensures AllBefore(blocks[j..], band, coeffs[j..])
  {
    hide Refined, IsBefore;
  }

  /** The round trip of a restart interval of a refinement pass: from the values of the pass before, all blocks come back
      with one more bit, and no run of ends of bands is left over. */
  lemma {:induction false} BlocksAreRefined(t: HuffmanTable, c: CodeTable, blocks: seq<Block>, band: Band, coeffs: seq<Block>, eobRun: int, rest: Bits)
      returns (end: int)
    requires TableOf(t, c) && Valid(t) && band.Valid() && |blocks| == |coeffs| && AllBefore(blocks, band, coeffs) && eobRun <= 0
    requires AllKnown(t, ItemsOf(blocks, band, 0, [])) && Emittable(c, ItemsOf(blocks, band, 0, []))
    ensures end <= 0
    ensures RefineBlocks(t, band, coeffs, eobRun, BitsOfItems(c, ItemsOf(blocks, band, 0, [])) + rest)
         == Got((AllRefined(blocks, band, coeffs), end), rest)
    decreases |blocks|
  {
    hide RefineInBand, TableOf, Distinct, Fits, AllKnown, Emittable, BitsOfItems, AllBefore, AllRefined, IsBefore, Refined, Tails, AllOld, ItemsOf;
    if blocks == [] {
      NoItem(band, 0, []);
      NoItems(c, rest);
      NothingRefined(band);
      end := eobRun;
    } else {
      FirstBefore(blocks, band, coeffs);
      assert [blocks[0]] + blocks[1..] == blocks;
      var j, others, e := BlockIsRefined(t, c, blocks[0], blocks[1..], band, coeffs[0], eobRun, ItemsOf(blocks, band, 0, []), rest);
      var bits := BitsOfItems(c, others) + rest;
      RefinedParts(blocks[1..], band, coeffs[1..], j);
      end := BlocksAreRefined(t, c, blocks[1..][j..], band, coeffs[1..][j..], if e < 0 then e else 0, rest);
      if e >= 0 {
        SkipOld(t, blocks[1..], band, coeffs[1..], j, bits);
      } else {
        NoTails(blocks[1..], band, []);
        NoneRefined(blocks[1..], band, coeffs[1..], bits);
      }
    }
  }

  lemma NothingRefined(band: Band)
    requires band.Valid()
    ensures AllRefined([], band, []) == []
  {
  }

  lemma NoneRefined(blocks: seq<Block>, band: Band, coeffs: seq<Block>, bits: Bits)
    requires band.Valid() && |blocks| == |coeffs|
    ensures Tails(blocks[..0], band) + bits == bits && AllRefined(blocks[..0], band, coeffs[..0]) == [] && coeffs[0..] == coeffs && blocks[0..] == blocks
  {
    assert [] + bits == bits;
  }
}
