/**
 The first pass of a progressive AC scan (TokenizeACProgressiveScan in lib/jpegli/entropy_coding.cc and DecodeDCTBlock
 in lib/jpegli/decode_scan.cc): a band of coefficients without their lowest bits, and runs of ends of bands.
 */
module ProgressiveBlocks {
  import opened Arithmetic
  import opened BitStrings
  import opened BitWriter
  import opened HuffmanCode
  import opened ScanWriter
  import opened BlockCoding
  import opened BlockSymbols
  import opened BlockDecoding
  import opened BlockRoundTrip
  import opened BlockTokens

  /** The coefficients of a scan, from first to last, and the number of bits that it leaves out. */
  datatype Band = Band(first: nat, last: nat, shift: nat)
  {
    predicate Valid() {
      1 <= first <= last <= 63 && shift <= 13
    }
  }

  // ---------------------------------------------------------------- the decoder

  /** The coefficients, and the number of ends of bands that are known to follow. */
  datatype BandState = BandState(coeffs: Block, eobRun: int)

  /** The coefficients of a band from k on. */
  function DecodeBand(ac: HuffmanTable, band: Band, k: nat, coeffs: Block, eobRun: int, bits: Bits): Decoded<BandState>
    requires Valid(ac) && band.Valid()
    decreases 64 - k
  {
    if k > band.last then Got(BandState(coeffs, eobRun), bits) else
      match DecodeSymbol(ac, bits)
      case Fail => Fail
      case Got(sr, bits1) =>
        var r, s := sr / 16, sr % 16;
        if s > 0 then
          if k + r > band.last || s + band.shift >= DC_ALPHABET_SIZE then Fail else
            match ReadBits(bits1, s)
            case Fail => Fail
            case Got(v, bits2) =>
              DecodeBand(ac, band, k + r + 1, coeffs[k + r := HuffExtend(v, s) * Pow2(band.shift)], eobRun, bits2)
        else if r == 15 then DecodeBand(ac, band, k + 16, coeffs, eobRun, bits1)
        else
          match ReadBits(bits1, r)
          case Fail => Fail
          case Got(v, bits2) => Got(BandState(coeffs, Pow2(r) + v), bits2)
  }

  /** One block; a run of ends of bands covers it without any bits. */
  function DecodeInBand(ac: HuffmanTable, band: Band, coeffs: Block, eobRun: int, bits: Bits): Decoded<BandState>
    requires Valid(ac) && band.Valid()
  {
    if eobRun > 0 then Got(BandState(coeffs, eobRun - 1), bits) else
      match DecodeBand(ac, band, band.first, coeffs, eobRun, bits)
      case Fail => Fail
      case Got(state, rest) => Got(BandState(state.coeffs, state.eobRun - 1), rest)
  }

  /** The blocks of a restart interval, one after the other. */
  function DecodeBlocks(ac: HuffmanTable, band: Band, blocks: seq<Block>, eobRun: int, bits: Bits): Decoded<(seq<Block>, int)>
    requires Valid(ac) && band.Valid()
  {
    if blocks == [] then Got(([], eobRun), bits) else
      match DecodeInBand(ac, band, blocks[0], eobRun, bits)
      case Fail => Fail
      case Got(state, rest) =>
        match DecodeBlocks(ac, band, blocks[1..], state.eobRun, rest)
        case Fail => Fail
        case Got((others, end), rest2) => Got(([state.coeffs] + others, end), rest2)
  }

  // ---------------------------------------------------------------- the encoder

  /** What is sent of a coefficient: its magnitude without the lowest bits, and its sign. */
  function Sent(c: int, shift: nat): int {
    var a := Abs(c) / Pow2(shift);
    if c < 0 then -a else a
  }

  lemma SentIsSmaller(c: int, shift: nat)
    ensures Abs(Sent(c, shift)) <= Abs(c)
  {
    QuotientBounds(Abs(c), Pow2(shift));
  }

  lemma QuotientBounds(x: nat, p: nat)
    requires p > 0
    ensures 0 <= x / p <= x
  {
    var a, r := x / p, x % p;
    assert x == a * p + r;
    MulBounds(a, p);
  }

  function SentSize(b: Block, k: nat, shift: nat): nat
    requires k < 64
  {
    BitLength(Abs(Sent(b[k], shift)))
  }

  lemma SentNarrow(b: Block, k: nat, shift: nat)
    requires Narrow(b) && k < 64
    ensures SentSize(b, k, shift) <= 15 && Pow2(SentSize(b, k, shift)) <= 0x8000
    ensures Sent(b[k], shift) != 0 ==> SentSize(b, k, shift) >= 1
  {
    SentIsSmaller(b[k], shift);
    BitLengthOfSmall(Abs(Sent(b[k], shift)), 15);
    Pow2Mono(SentSize(b, k, shift), 15);
    Pow2Sum(7, 8);
    Pow2Small();
  }

  function SentBits(b: Block, k: nat, shift: nat): (e: uint64)
    requires Narrow(b) && k < 64
    ensures e < Pow2(SentSize(b, k, shift))
  {
    SentNarrow(b, k, shift);
    ExtraBits(Sent(b[k], shift), SentSize(b, k, shift))
  }

  /** The tokens of the coefficients from k on, after r zeros. */
  function BandTokens(context: nat, b: Block, band: Band, k: nat, r: nat): seq<Token>
    requires Narrow(b) && band.Valid()
    decreases 64 - k
  {
    if k > band.last then []
    else if Sent(b[k], band.shift) == 0 then BandTokens(context, b, band, k + 1, r + 1)
    else RunTokens(context, r, SentSize(b, k, band.shift), SentBits(b, k, band.shift)) + BandTokens(context, b, band, k + 1, 0)
  }

  /** The zeros after the last of them. */
  function TrailingZeros(b: Block, band: Band, k: nat, r: nat): nat
    requires band.Valid()
    decreases 64 - k
  {
    if k > band.last then r else TrailingZeros(b, band, k + 1, if Sent(b[k], band.shift) == 0 then r + 1 else 0)
  }

  const MAX_EOB_RUN: nat := 0x7FFF

  /** The number of bits of a run below its first one. */
  function RunBits(run: nat): (n: nat)
    requires 0 < run <= MAX_EOB_RUN
    ensures n <= 14 && Pow2(n) <= run < 2 * Pow2(n)
  {
    BitLengthBounds(run);
    BitLengthOfSmall(run, 15);
    Pow2Sum(7, 8);
    Pow2Small();
    BitLength(run) - 1
  }

  /** A run of ends of bands. */
  function EobRunToken(context: nat, run: nat): Token
    requires 0 < run <= MAX_EOB_RUN
  {
    Token(context, 16 * RunBits(run), run - Pow2(RunBits(run)))
  }

  function EobRunTokens(context: nat, run: nat): seq<Token>
    requires run <= MAX_EOB_RUN
  {
    if run == 0 then [] else [EobRunToken(context, run)]
  }

  predicate AllNarrow(blocks: seq<Block>) {
    forall i :: 0 <= i < |blocks| ==> Narrow(blocks[i])
  }

  /** What is sent for one block, and the run of ends of bands that has not been sent then. */
  function TokensOfOne(context: nat, b: Block, band: Band, eobRun: nat): (r: (seq<Token>, nat))
    requires Narrow(b) && band.Valid() && eobRun < MAX_EOB_RUN
    ensures r.1 < MAX_EOB_RUN
  {
    var tokens := BandTokens(context, b, band, band.first, 0);
    var before := if tokens == [] then 0 else eobRun;
    var run := eobRun - before + (if TrailingZeros(b, band, band.first, 0) > 0 then 1 else 0);
    var after := if run == MAX_EOB_RUN then run else 0;
    (EobRunTokens(context, before) + tokens + EobRunTokens(context, after), run - after)
  }

  /** The tokens of blocks, after a run of ends of bands that has not been sent yet. */
  function BlocksTokens(context: nat, blocks: seq<Block>, band: Band, eobRun: nat): seq<Token>
    requires AllNarrow(blocks) && band.Valid() && eobRun < MAX_EOB_RUN
  {
    if blocks == [] then EobRunTokens(context, eobRun) else
      var (tokens, run) := TokensOfOne(context, blocks[0], band, eobRun);
      tokens + BlocksTokens(context, blocks[1..], band, run)
  }

  // ---------------------------------------------------------------- reading one band back

  /** The table has all symbols. */
  predicate InTable(t: HuffmanTable, tokens: seq<Token>)
    requires t.Shape()
  {
    forall i :: 0 <= i < |tokens| ==> tokens[i].symbol in Symbols(t)
  }

  lemma InTableSum(t: HuffmanTable, a: seq<Token>, b: seq<Token>)
    requires t.Shape()
    ensures InTable(t, a + b) <==> InTable(t, a) && InTable(t, b)
  {
    if InTable(t, a + b) {
      assert forall i :: 0 <= i < |a| ==> a[i] == (a + b)[i];
      assert forall i :: 0 <= i < |b| ==> b[i] == (a + b)[|a| + i];
    }
  }

  /** A token, read back as its symbol and its extra bits. */
  lemma OneToken(coding: Coding, context: nat, t: HuffmanTable, c: CodeTable, s: Byte, e: uint64, rest: Bits)
    requires HasTable(coding, context, c) && TableOf(t, c) && s in Symbols(t) && e < Pow2(NumExtraBits(s))
    ensures var one := [Token(context, s, e)];
      && Writable(coding, one)
      && DecodeSymbol(t, BitsOfTokens(coding, one) + rest) == Got(s, Low(e, NumExtraBits(s)) + rest)
      && ReadBits(Low(e, NumExtraBits(s)) + rest, NumExtraBits(s)) == Got(e, rest)
  {
    hide DecodeSymbol, TableOf, BitsOfTokens, Writable, CanEmit, CodeBits, Symbols, Low, Pow2, NumExtraBits, HasTable, ReadBits;
    DecodeSymbolBits(t, c, s, e, rest);
    ReadExtraBits(e, NumExtraBits(s), rest);
    BitsOfOne(coding, Token(context, s, e), c);
  }

  /** Unfolding of DecodeBand for a symbol whose extra bits have the value v. */
  lemma BandStep(ac: HuffmanTable, band: Band, k: nat, coeffs: Block, eobRun: int, bits: Bits, sr: nat, bits1: Bits, v: nat, bits2: Bits)
    requires Valid(ac) && band.Valid() && k <= band.last && sr < 256 && DecodeSymbol(ac, bits) == Got(sr, bits1)
    requires ReadBits(bits1, NumExtraBits(sr)) == Got(v, bits2)
    ensures var r, s := sr / 16, sr % 16;
      && (s > 0 && k + r <= band.last && s + band.shift < DC_ALPHABET_SIZE ==>
            DecodeBand(ac, band, k, coeffs, eobRun, bits)
              == DecodeBand(ac, band, k + r + 1, coeffs[k + r := HuffExtend(v, s) * Pow2(band.shift)], eobRun, bits2))
      && (s > 0 && s + band.shift >= DC_ALPHABET_SIZE ==> DecodeBand(ac, band, k, coeffs, eobRun, bits) == Fail)
      && (sr == 0xF0 ==> DecodeBand(ac, band, k, coeffs, eobRun, bits) == DecodeBand(ac, band, k + 16, coeffs, eobRun, bits2))
      && (s == 0 && r < 15 ==> DecodeBand(ac, band, k, coeffs, eobRun, bits) == Got(BandState(coeffs, Pow2(r) + v), bits2))
  {
    hide DecodeSymbol, HuffExtend, Valid, Pow2;
  }

  lemma {:induction false} RunIsRead(coding: Coding, context: nat, t: HuffmanTable, c: CodeTable, band: Band, k: nat, run: nat, size: nat, e: uint64,
                                     coeffs: Block, eobRun: int, rest: Bits)
    requires HasTable(coding, context, c) && TableOf(t, c) && band.Valid() && k + run <= band.last && 1 <= size <= 15 && e < Pow2(size)
    requires Valid(t) && InTable(t, RunTokens(context, run, size, e))
    ensures var tokens := RunTokens(context, run, size, e);
      && Writable(coding, tokens)
      && DecodeBand(t, band, k, coeffs, eobRun, BitsOfTokens(coding, tokens) + rest)
           == if size + band.shift >= DC_ALPHABET_SIZE then Fail
              else DecodeBand(t, band, k + run + 1, coeffs[k + run := HuffExtend(e, size) * Pow2(band.shift)], eobRun, rest)
    decreases run
  {
    hide DecodeBand, DecodeSymbol, ReadBits, HuffExtend, TableOf, HasTable, BitsOfTokens, Writable, Pow2, Symbols, Low;
    if run > 15 {
      var first, others := [Token(context, 0xF0, 0)], RunTokens(context, run - 16, size, e);
      InTableSum(t, first, others);
      assert first[0].symbol == 0xF0;
      RunIsRead(coding, context, t, c, band, k + 16, run - 16, size, e, coeffs, eobRun, rest);
      PowZero();
      OneToken(coding, context, t, c, 0xF0, 0, BitsOfTokens(coding, others) + rest);
      BitsOfSum(coding, first, others);
      Associate(BitsOfTokens(coding, first), BitsOfTokens(coding, others), rest);
      BandStep(t, band, k, coeffs, eobRun, BitsOfTokens(coding, first) + (BitsOfTokens(coding, others) + rest), 0xF0,
               Low(0, 0) + (BitsOfTokens(coding, others) + rest), 0, BitsOfTokens(coding, others) + rest);
    } else {
      var s := 16 * run + size;
      assert RunTokens(context, run, size, e)[0].symbol == s;
      ExtraRoom(run, size, e);
      assert NumExtraBits(s) == size;
      OneToken(coding, context, t, c, s, e, rest);
      BandStep(t, band, k, coeffs, eobRun, BitsOfTokens(coding, [Token(context, s, e)]) + rest, s, Low(e, size) + rest, e, rest);
    }
  }

  /** The coefficients with what is received for the band from k on. */
  function Filled(b: Block, band: Band, k: nat, coeffs: Block): Block
    requires band.Valid()
    decreases 64 - k
  {
    if k > band.last then coeffs
    else Filled(b, band, k + 1, if Sent(b[k], band.shift) == 0 then coeffs else coeffs[k := Sent(b[k], band.shift) * Pow2(band.shift)])
  }

  /** The coefficients that can be sent: below 2048 in magnitude. */
  predicate SmallBand(b: Block, band: Band, k: nat)
    requires band.Valid()
  {
    forall j :: k <= j <= band.last ==> Abs(b[j]) < 2048
  }

  /** Their sizes are what the decoder accepts, whatever the number of bits that are left out. */
  lemma SentSizeLimit(b: Block, k: nat, shift: nat)
    requires k < 64 && shift <= 13 && Sent(b[k], shift) != 0
    ensures SentSize(b, k, shift) >= 1
    ensures Abs(b[k]) < 2048 <==> SentSize(b, k, shift) + shift < DC_ALPHABET_SIZE
    ensures HuffExtend(ExtraBits(Sent(b[k], shift), SentSize(b, k, shift)), SentSize(b, k, shift)) == Sent(b[k], shift)
  {
    SentIsQuotient(b[k], shift);
    ExtendUndoesExtraBits(Sent(b[k], shift));
    SizeLimit(Abs(b[k]), shift, Abs(Sent(b[k], shift)));
  }

  lemma SentIsQuotient(c: int, shift: nat)
    ensures Abs(Sent(c, shift)) == Abs(c) / Pow2(shift)
  {
    QuotientBounds(Abs(c), Pow2(shift));
  }

  lemma SizeLimit(c: nat, shift: nat, a: nat)
    requires shift <= 13 && a == c / Pow2(shift) > 0
    ensures c < 2048 <==> BitLength(a) + shift < DC_ALPHABET_SIZE
  {
    BitLengthBounds(a);
    Pow2Small();
    if shift <= 11 {
      BitLengthOfSmall(a, 11 - shift);
      Pow2Sum(11 - shift, shift);
      hide Pow2, BitLength;
      DivBelow(c, Pow2(shift), Pow2(11 - shift));
    } else {
      Pow2Mono(11, shift);
      hide Pow2, BitLength;
      DivBelow(c, Pow2(shift), 1);
    }
  }

  lemma DivBelow(x: nat, p: nat, q: nat)
    requires p > 0
    ensures x / p < q <==> x < p * q
  {
    var a, r := x / p, x % p;
    assert x == a * p + r;
    QuotientBelow(a, p, r, q);
  }

  lemma QuotientBelow(a: nat, p: nat, r: nat, q: nat)
    requires r < p
    ensures a < q <==> a * p + r < p * q
  {
    assert (q - a) * p == p * q - a * p;
    MulBounds(q - a, p);
  }

  /** Small coefficients of a band from k on, after r zeros, are read back; the decoder has read the zeros before k, but
      not those after the last coefficient. */
  lemma {:induction false} BandIsRead(coding: Coding, context: nat, t: HuffmanTable, c: CodeTable, b: Block, band: Band, k: nat, r: nat,
                                      coeffs: Block, eobRun: int, rest: Bits)
    requires HasTable(coding, context, c) && TableOf(t, c) && Valid(t) && Narrow(b) && band.Valid() && r <= k <= band.last + 1
    requires SmallBand(b, band, k) && InTable(t, BandTokens(context, b, band, k, r))
    ensures TrailingZeros(b, band, k, r) <= band.last + 1
    ensures var tokens := BandTokens(context, b, band, k, r);
      && Writable(coding, tokens)
      && DecodeBand(t, band, k - r, coeffs, eobRun, BitsOfTokens(coding, tokens) + rest)
           == DecodeBand(t, band, band.last + 1 - TrailingZeros(b, band, k, r), Filled(b, band, k, coeffs), eobRun, rest)
    decreases 64 - k
  {
    hide DecodeBand, HuffExtend, TableOf, HasTable, BitsOfTokens, Writable, Pow2, Narrow, RunTokens, InTable, Sent, SentBits, SentSize;
    if k > band.last {
      BitsOfNone(coding);
      assert [] + rest == rest;
    } else if Sent(b[k], band.shift) == 0 {
      BandIsRead(coding, context, t, c, b, band, k + 1, r + 1, coeffs, eobRun, rest);
    } else {
      var size, e := SentSize(b, k, band.shift), SentBits(b, k, band.shift);
      var first, others := RunTokens(context, r, size, e), BandTokens(context, b, band, k + 1, 0);
      InTableSum(t, first, others);
      SentRead(b, k, band.shift);
      var next := coeffs[k := Sent(b[k], band.shift) * Pow2(band.shift)];
      BandIsRead(coding, context, t, c, b, band, k + 1, 0, next, eobRun, rest);
      RunIsRead(coding, context, t, c, band, k - r, r, size, e, coeffs, eobRun, BitsOfTokens(coding, others) + rest);
      BitsOfSum(coding, first, others);
      Associate(BitsOfTokens(coding, first), BitsOfTokens(coding, others), rest);
    }
  }

  lemma SentRead(b: Block, k: nat, shift: nat)
    requires Narrow(b) && k < 64 && shift <= 13 && Sent(b[k], shift) != 0 && Abs(b[k]) < 2048
    ensures var size, e := SentSize(b, k, shift), SentBits(b, k, shift);
            1 <= size <= 15 && e < Pow2(size) && size + shift < DC_ALPHABET_SIZE && HuffExtend(e, size) == Sent(b[k], shift)
  {
    SentNarrow(b, k, shift);
    SentSizeLimit(b, k, shift);
    hide Pow2, HuffExtend, ExtraBits, Sent;
  }

  /** A run of ends of bands is read back. */
  lemma EobRunIsRead(coding: Coding, context: nat, t: HuffmanTable, c: CodeTable, band: Band, k: nat, run: nat, coeffs: Block, eobRun: int, rest: Bits)
    requires HasTable(coding, context, c) && TableOf(t, c) && Valid(t) && band.Valid() && k <= band.last && 0 < run <= MAX_EOB_RUN
    requires InTable(t, EobRunTokens(context, run))
    ensures var tokens := EobRunTokens(context, run);
      && Writable(coding, tokens)
      && DecodeBand(t, band, k, coeffs, eobRun, BitsOfTokens(coding, tokens) + rest) == Got(BandState(coeffs, run), rest)
  {
    hide DecodeBand, ReadBits, DecodeSymbol, TableOf, HasTable, BitsOfTokens, Writable, Pow2, Symbols, Low;
    var n := RunBits(run);
    var e := run - Pow2(n);
    assert EobRunTokens(context, run)[0].symbol == 16 * n;
    RunIsShort(run);
    OneToken(coding, context, t, c, 16 * n, e, rest);
    BandStep(t, band, k, coeffs, eobRun, BitsOfTokens(coding, [Token(context, 16 * n, e)]) + rest, 16 * n, Low(e, n) + rest, e, rest);
  }

  lemma RunIsShort(run: nat)
    requires 0 < run <= MAX_EOB_RUN
    ensures var n := RunBits(run); n < 15 && Pow2(n) <= run && run - Pow2(n) < Pow2(n) && NumExtraBits(16 * n) == n
  {
  }

  // ---------------------------------------------------------------- reading the blocks back

  /** Nothing is sent for the band of the block. */
  predicate Silent(b: Block, band: Band)
    requires band.Valid()
  {
    forall k :: band.first <= k <= band.last ==> Sent(b[k], band.shift) == 0
  }

  lemma {:induction false} SilentFrom(context: nat, b: Block, band: Band, k: nat, r: nat, coeffs: Block)
    requires Narrow(b) && band.Valid() && k <= band.last + 1
    ensures BandTokens(context, b, band, k, r) == [] <==> forall j :: k <= j <= band.last ==> Sent(b[j], band.shift) == 0
    ensures BandTokens(context, b, band, k, r) == [] ==>
            TrailingZeros(b, band, k, r) == r + band.last + 1 - k && Filled(b, band, k, coeffs) == coeffs
    decreases 64 - k
  {
    hide Sent, SentSize, SentBits, Narrow;
    if k <= band.last {
      SilentFrom(context, b, band, k + 1, if Sent(b[k], band.shift) == 0 then r + 1 else 0, coeffs);
      if Sent(b[k], band.shift) != 0 {
        RunTokensFew(context, r, SentSize(b, k, band.shift), SentBits(b, k, band.shift));
      }
    }
  }

  /** A pending run goes on over blocks for which nothing is sent, and is then sent as one token. */
  lemma {:induction false} Absorbed(context: nat, blocks: seq<Block>, band: Band, eobRun: nat) returns (j: nat)
    requires AllNarrow(blocks) && band.Valid() && 0 < eobRun < MAX_EOB_RUN
    ensures j <= |blocks| && eobRun + j <= MAX_EOB_RUN
    ensures forall i :: 0 <= i < j ==> Silent(blocks[i], band)
    ensures BlocksTokens(context, blocks, band, eobRun)
         == EobRunTokens(context, eobRun + j) + BlocksTokens(context, blocks[j..], band, 0)
    decreases |blocks|
  {
    hide BandTokens, TrailingZeros, Narrow, Sent, EobRunTokens;
    j := 0;
    assert blocks[0..] == blocks;
    if blocks != [] {
      SilentFrom(context, blocks[0], band, band.first, 0, blocks[0]);
      NoEobRun(context);
      if BandTokens(context, blocks[0], band, band.first, 0) == [] {
        if eobRun + 1 == MAX_EOB_RUN {
          j := 1;
        } else {
          j := Absorbed(context, blocks[1..], band, eobRun + 1);
          assert blocks[1..][j..] == blocks[j + 1..];
          j := j + 1;
        }
      }
    } else {
      NoEobRun(context);
    }
  }

  lemma NoEobRun(context: nat)
    ensures EobRunTokens(context, 0) == []
  {
  }

  /** Blocks that a run covers keep their coefficients. */
  lemma {:induction false} SkipSilent(ac: HuffmanTable, band: Band, coeffs: seq<Block>, j: nat, bits: Bits)
    requires Valid(ac) && band.Valid() && j <= |coeffs|
    ensures DecodeBlocks(ac, band, coeffs, j, bits) ==
            match DecodeBlocks(ac, band, coeffs[j..], 0, bits)
            case Fail => Fail
            case Got(d, rest) => Got((coeffs[..j] + d.0, d.1), rest)
    decreases j
  {
    hide DecodeBand, Valid;
    if j == 0 {
      assert coeffs[0..] == coeffs && coeffs[..0] == [];
      match DecodeBlocks(ac, band, coeffs, 0, bits)
      case Fail =>
      case Got(d, rest) => assert [] + d.0 == d.0 && d == (d.0, d.1);
    } else {
      SkipSilent(ac, band, coeffs[1..], j - 1, bits);
      assert coeffs[1..][j - 1..] == coeffs[j..];
      match DecodeBlocks(ac, band, coeffs[j..], 0, bits)
      case Fail =>
      case Got(d, rest) => assert [coeffs[0]] + (coeffs[1..][..j - 1] + d.0) == coeffs[..j] + d.0;
    }
  }

  /** What is received for each block. */
  function AllFilled(blocks: seq<Block>, band: Band, coeffs: seq<Block>): (filled: seq<Block>)
    requires |blocks| == |coeffs| && band.Valid()
    ensures |filled| == |coeffs|
  {
    seq(|blocks|, i requires 0 <= i < |blocks| => Filled(blocks[i], band, band.first, coeffs[i]))
  }

  lemma {:induction false} SilentKeeps(context: nat, blocks: seq<Block>, band: Band, coeffs: seq<Block>, j: nat)
    requires |blocks| == |coeffs| && band.Valid() && AllNarrow(blocks) && j <= |blocks| && forall i :: 0 <= i < j ==> Silent(blocks[i], band)
    ensures AllFilled(blocks, band, coeffs) == coeffs[..j] + AllFilled(blocks[j..], band, coeffs[j..])
  {
    forall i | 0 <= i < j
      ensures Filled(blocks[i], band, band.first, coeffs[i]) == coeffs[i]
    {
      SilentFrom(context, blocks[i], band, band.first, 0, coeffs[i]);
    }
  }

  lemma FirstTokens(context: nat, blocks: seq<Block>, band: Band)
    requires AllNarrow(blocks) && band.Valid() && blocks != []
    ensures var run := if TrailingZeros(blocks[0], band, band.first, 0) > 0 then 1 else 0;
            BlocksTokens(context, blocks, band, 0)
              == BandTokens(context, blocks[0], band, band.first, 0) + BlocksTokens(context, blocks[1..], band, run)
  {
    NoEobRun(context);
    hide BandTokens, TrailingZeros, EobRunTokens, Narrow;
  }

  /** A block and its tokens, and how the tokens go on. */
  lemma BlockIsRead(coding: Coding, context: nat, t: HuffmanTable, c: CodeTable, b: Block, blocks: seq<Block>, band: Band, coeffs: Block,
                    eobRun: int, tokens: seq<Token>, rest: Bits) returns (j: nat, others: seq<Token>, e: int)
    requires HasTable(coding, context, c) && TableOf(t, c) && Valid(t) && Narrow(b) && AllNarrow(blocks) && band.Valid() && eobRun <= 0
    requires var run := if TrailingZeros(b, band, band.first, 0) > 0 then 1 else 0;
             tokens == BandTokens(context, b, band, band.first, 0) + BlocksTokens(context, blocks, band, run)
    requires SmallBand(b, band, band.first) && InTable(t, tokens) && Writable(coding, tokens)
    ensures j <= |blocks| && AllNarrow(blocks[j..]) && others == BlocksTokens(context, blocks[j..], band, 0)
    ensures forall i :: 0 <= i < j ==> Silent(blocks[i], band)
    ensures Writable(coding, others) && InTable(t, others)
    ensures e == j || (j == 0 && e <= 0)
    ensures DecodeInBand(t, band, coeffs, eobRun, BitsOfTokens(coding, tokens) + rest)
         == Got(BandState(Filled(b, band, band.first, coeffs), e), BitsOfTokens(coding, others) + rest)
  {
    hide DecodeBand, DecodeInBand, TableOf, HasTable, BitsOfTokens, Writable, Narrow, InTable, BandTokens, TrailingZeros, Filled;
    hide BlocksTokens, SmallBand, Silent, AllNarrow, Distinct, Fits;
    var mine, zeros := BandTokens(context, b, band, band.first, 0), TrailingZeros(b, band, band.first, 0);
    var tail := BlocksTokens(context, blocks, band, if zeros > 0 then 1 else 0);
    TwoParts(coding, t, mine, tail, rest);
    BandIsRead(coding, context, t, c, b, band, band.first, 0, coeffs, eobRun, BitsOfTokens(coding, tail) + rest);
    j, others, e := TailFollows(coding, context, t, c, blocks, band, zeros, Filled(b, band, band.first, coeffs), eobRun, rest);
    e := e - 1;
    BlockOfBand(t, band, coeffs, eobRun, BitsOfTokens(coding, tokens) + rest);
  }

  lemma TwoParts(coding: Coding, t: HuffmanTable, a: seq<Token>, b: seq<Token>, rest: Bits)
    requires t.Shape() && Writable(coding, a + b) && InTable(t, a + b)
    ensures Writable(coding, a) && Writable(coding, b) && InTable(t, a) && InTable(t, b)
    ensures BitsOfTokens(coding, a + b) + rest == BitsOfTokens(coding, a) + (BitsOfTokens(coding, b) + rest)
  {
    WritableParts(coding, a, b);
    InTableSum(t, a, b);
    BitsOfSum(coding, a, b);
    hide BitsOfTokens;
    Associate(BitsOfTokens(coding, a), BitsOfTokens(coding, b), rest);
  }

  /** A block ends with its last coefficient, or with an end of the band. */
  lemma TailFollows(coding: Coding, context: nat, t: HuffmanTable, c: CodeTable, blocks: seq<Block>, band: Band, zeros: nat,
                    coeffs: Block, eobRun: int, rest: Bits) returns (j: nat, others: seq<Token>, e: int)
    requires HasTable(coding, context, c) && TableOf(t, c) && Valid(t) && AllNarrow(blocks) && band.Valid() && zeros <= band.last + 1 && eobRun <= 0
    requires var tail := BlocksTokens(context, blocks, band, if zeros > 0 then 1 else 0); InTable(t, tail) && Writable(coding, tail)
    ensures j <= |blocks| && AllNarrow(blocks[j..]) && others == BlocksTokens(context, blocks[j..], band, 0)
    ensures forall i :: 0 <= i < j ==> Silent(blocks[i], band)
    ensures Writable(coding, others) && InTable(t, others)
    ensures e == j + 1 || (j == 0 && e <= 1)
    ensures var tail := BlocksTokens(context, blocks, band, if zeros > 0 then 1 else 0);
            DecodeBand(t, band, band.last + 1 - zeros, coeffs, eobRun, BitsOfTokens(coding, tail) + rest)
              == Got(BandState(coeffs, e), BitsOfTokens(coding, others) + rest)
  {
    hide DecodeBand, TableOf, HasTable, BitsOfTokens, Writable, HuffmanCode.Valid, InTable, BlocksTokens, Silent, AllNarrow;
    if zeros == 0 {
      j, others, e := 0, BlocksTokens(context, blocks, band, 0), eobRun;
      assert blocks[0..] == blocks;
      BandEnds(t, band, coeffs, eobRun, BitsOfTokens(coding, others) + rest);
    } else {
      j, others := RunFollows(coding, context, t, c, blocks, band, band.last + 1 - zeros, coeffs, eobRun, rest);
      NarrowFrom(blocks, j);
      e := 1 + j;
    }
  }

  /** The zeros at the end of a block begin a run. */
  lemma RunFollows(coding: Coding, context: nat, t: HuffmanTable, c: CodeTable, blocks: seq<Block>, band: Band, k: nat, coeffs: Block, eobRun: int, rest: Bits)
      returns (j: nat, others: seq<Token>)
    requires HasTable(coding, context, c) && TableOf(t, c) && Valid(t) && AllNarrow(blocks) && band.Valid() && k <= band.last
    requires InTable(t, BlocksTokens(context, blocks, band, 1)) && Writable(coding, BlocksTokens(context, blocks, band, 1))
    ensures j <= |blocks| && others == BlocksTokens(context, blocks[j..], band, 0)
    ensures forall i :: 0 <= i < j ==> Silent(blocks[i], band)
    ensures Writable(coding, others) && InTable(t, others)
    ensures DecodeBand(t, band, k, coeffs, eobRun, BitsOfTokens(coding, BlocksTokens(context, blocks, band, 1)) + rest)
         == Got(BandState(coeffs, 1 + j), BitsOfTokens(coding, others) + rest)
  {
    assert t.Shape();
    hide DecodeBand, TableOf, HasTable, BitsOfTokens, Writable, HuffmanCode.Valid, AllNarrow, InTable, EobRunTokens, BlocksTokens, Silent;
    j := Absorbed(context, blocks, band, 1);
    NarrowFrom(blocks, j);
    others := BlocksTokens(context, blocks[j..], band, 0);
    var eob := EobRunTokens(context, 1 + j);
    TwoParts(coding, t, eob, others, rest);
    EobRunIsRead(coding, context, t, c, band, k, 1 + j, coeffs, eobRun, BitsOfTokens(coding, others) + rest);
  }

  lemma BlockOfBand(ac: HuffmanTable, band: Band, coeffs: Block, eobRun: int, bits: Bits)
    requires Valid(ac) && band.Valid() && eobRun <= 0
    ensures DecodeInBand(ac, band, coeffs, eobRun, bits) ==
            match DecodeBand(ac, band, band.first, coeffs, eobRun, bits)
            case Fail => Fail
            case Got(state, rest) => Got(BandState(state.coeffs, state.eobRun - 1), rest)
  {
  }

  lemma NarrowFrom(blocks: seq<Block>, j: nat)
    requires AllNarrow(blocks) && j <= |blocks|
    ensures AllNarrow(blocks[j..])
  {
  }

  lemma WritableParts(coding: Coding, a: seq<Token>, b: seq<Token>)
    requires Writable(coding, a + b)
    ensures Writable(coding, a) && Writable(coding, b)
  {
    assert forall i :: 0 <= i < |a| ==> a[i] == (a + b)[i];
    assert forall i :: 0 <= i < |b| ==> b[i] == (a + b)[|a| + i];
  }

  lemma BandEnds(ac: HuffmanTable, band: Band, coeffs: Block, eobRun: int, bits: Bits)
    requires Valid(ac) && band.Valid()
    ensures DecodeBand(ac, band, band.last + 1, coeffs, eobRun, bits) == Got(BandState(coeffs, eobRun), bits)
  {
  }

  /** The round trip of a restart interval of a first pass: all blocks come back without their lowest bits, and no run
      of ends of bands is left over. */
  lemma {:induction false} BlocksAreRead(coding: Coding, context: nat, t: HuffmanTable, c: CodeTable, blocks: seq<Block>, band: Band,
                                         coeffs: seq<Block>, eobRun: int, rest: Bits) returns (end: int)
    requires HasTable(coding, context, c) && TableOf(t, c) && Valid(t) && AllNarrow(blocks) && band.Valid() && eobRun <= 0 && |coeffs| == |blocks|
    requires forall i :: 0 <= i < |blocks| ==> SmallBand(blocks[i], band, band.first)
    requires InTable(t, BlocksTokens(context, blocks, band, 0)) && Writable(coding, BlocksTokens(context, blocks, band, 0))
    ensures end <= 0
    ensures DecodeBlocks(t, band, coeffs, eobRun, BitsOfTokens(coding, BlocksTokens(context, blocks, band, 0)) + rest)
         == Got((AllFilled(blocks, band, coeffs), end), rest)
    decreases |blocks|
  {
    hide DecodeInBand, TableOf, HasTable, BitsOfTokens, Writable, Valid, Narrow, InTable, BlocksTokens, Filled, Silent, SmallBand;
    if blocks == [] {
      NoBlocks(coding, context, band, rest);
      end := eobRun;
    } else {
      FirstTokens(context, blocks, band);
      var j, others, e := BlockIsRead(coding, context, t, c, blocks[0], blocks[1..], band, coeffs[0], eobRun,
                                      BlocksTokens(context, blocks, band, 0), rest);
      var bits := BitsOfTokens(coding, others) + rest;
      SilentKeeps(context, blocks[1..], band, coeffs[1..], j);
      end := BlocksAreRead(coding, context, t, c, blocks[1..][j..], band, coeffs[1..][j..], if e < 0 then e else 0, rest);
      if e >= 0 {
        SkipSilent(t, band, coeffs[1..], j, bits);
      } else {
        assert coeffs[1..][0..] == coeffs[1..] && coeffs[1..][..0] == [];
      }
      assert AllFilled(blocks, band, coeffs) == [Filled(blocks[0], band, band.first, coeffs[0])] + AllFilled(blocks[1..], band, coeffs[1..]);
    }
  }

  lemma NoBlocks(coding: Coding, context: nat, band: Band, rest: Bits)
    requires band.Valid() && Writable(coding, BlocksTokens(context, [], band, 0))
    ensures BitsOfTokens(coding, BlocksTokens(context, [], band, 0)) + rest == rest
  {
    NoEobRun(context);
    BitsOfNone(coding);
  }

  /** Before anything has been received for the band: each coefficient of it comes without its lowest bits. */
  lemma {:induction false} FilledAt(b: Block, band: Band, k: nat, coeffs: Block, j: nat)
    requires band.Valid() && j < 64
    ensures Filled(b, band, k, coeffs)[j]
         == if k <= j <= band.last && Sent(b[j], band.shift) != 0 then Sent(b[j], band.shift) * Pow2(band.shift) else coeffs[j]
    decreases 64 - k
  {
    hide Sent, Pow2;
    if k <= band.last {
      FilledAt(b, band, k + 1, if Sent(b[k], band.shift) == 0 then coeffs else coeffs[k := Sent(b[k], band.shift) * Pow2(band.shift)], j);
    }
  }

  /** A coefficient of the band comes back with its sign, short of its magnitude by less than the value of the bits left out. */
  lemma ReceivedIsClose(b: Block, band: Band, coeffs: Block, j: nat)
    requires band.Valid() && band.first <= j <= band.last && coeffs[j] == 0
    ensures var x := Filled(b, band, band.first, coeffs)[j];
            Abs(x) <= Abs(b[j]) < Abs(x) + Pow2(band.shift) && (x > 0 ==> b[j] > 0) && (x < 0 ==> b[j] < 0)
  {
    FilledAt(b, band, band.first, coeffs, j);
    Shortened(b[j], Pow2(band.shift), Sent(b[j], band.shift));
  }

  lemma Shortened(c: int, p: nat, v: int)
    requires p > 0 && v == if c < 0 then -(Abs(c) / p) else Abs(c) / p
    ensures Abs(v * p) <= Abs(c) < Abs(v * p) + p && (v * p > 0 ==> c > 0) && (v * p < 0 ==> c < 0) && (v == 0 ==> v * p == 0)
  {
    var a, r := Abs(c) / p, Abs(c) % p;
    assert Abs(c) == a * p + r;
    MulBounds(a, p);
    assert v == a || v == -a;
    assert v * p == a * p || v * p == -(a * p);
  }

  // ---------------------------------------------------------------- computing the tokens

  /** The tokens of one block; a pending run is sent before the first of them. */
  method TokenizeBlock(context: nat, b: Block, band: Band, tokens0: seq<Token>, eobRun0: nat) returns (tokens: seq<Token>, eobRun: nat)
    requires Narrow(b) && band.Valid() && eobRun0 < MAX_EOB_RUN
    ensures (tokens, eobRun) == (tokens0 + TokensOfOne(context, b, band, eobRun0).0, TokensOfOne(context, b, band, eobRun0).1)
  {
    hide Narrow, Sent, SentSize, SentBits, RunTokens, EobRunTokens, BandTokens, TrailingZeros;
    ghost var mine, zeros := BandTokens(context, b, band, band.first, 0), TrailingZeros(b, band, band.first, 0);
    tokens, eobRun := tokens0, eobRun0;
    var r := 0;
    NoEobRun(context);
    for k := band.first to band.last + 1
      invariant TrailingZeros(b, band, k, r) == zeros
      invariant (eobRun == eobRun0 && tokens == tokens0 && mine == BandTokens(context, b, band, k, r))
             || (eobRun == 0 && mine != [] && tokens + BandTokens(context, b, band, k, r) == tokens0 + EobRunTokens(context, eobRun0) + mine)
    {
      BandNext(context, b, band, k, r);
      var temp := Sent(b[k], band.shift);
      if temp == 0 {
        r := r + 1;
      } else {
        SentNarrow(b, k, band.shift);
        ghost var run := RunTokens(context, r, SentSize(b, k, band.shift), SentBits(b, k, band.shift));
        if eobRun > 0 {
          tokens := tokens + [EobRunToken(context, eobRun)];
          EobRunIs(context, eobRun);
          eobRun := 0;
        }
        Associate(tokens, run, BandTokens(context, b, band, k + 1, 0));
        tokens := EmitRun(tokens, context, r, SentSize(b, k, band.shift), SentBits(b, k, band.shift));
        r := 0;
      }
    }
    BandDone(context, b, band, r);
    ghost var lead := EobRunTokens(context, if mine == [] then 0 else eobRun0) + mine;
    Associate(tokens0, EobRunTokens(context, if mine == [] then 0 else eobRun0), mine);
    assert tokens == tokens0 + lead && lead + [] == lead;
    if r > 0 {
      eobRun := eobRun + 1;
      if eobRun == MAX_EOB_RUN {
        Associate(tokens0, lead, [EobRunToken(context, eobRun)]);
        tokens := tokens + [EobRunToken(context, eobRun)];
        EobRunIs(context, eobRun);
        eobRun := 0;
      }
    }
  }

  lemma EobRunIs(context: nat, run: nat)
    requires 0 < run <= MAX_EOB_RUN
    ensures EobRunTokens(context, run) == [EobRunToken(context, run)]
  {
  }

  lemma BandNext(context: nat, b: Block, band: Band, k: nat, r: nat)
    requires Narrow(b) && band.Valid() && k <= band.last
    ensures Sent(b[k], band.shift) == 0 ==>
      BandTokens(context, b, band, k, r) == BandTokens(context, b, band, k + 1, r + 1)
      && TrailingZeros(b, band, k, r) == TrailingZeros(b, band, k + 1, r + 1)
    ensures Sent(b[k], band.shift) != 0 ==>
      var run := RunTokens(context, r, SentSize(b, k, band.shift), SentBits(b, k, band.shift));
      run != [] && BandTokens(context, b, band, k, r) == run + BandTokens(context, b, band, k + 1, 0)
      && TrailingZeros(b, band, k, r) == TrailingZeros(b, band, k + 1, 0)
  {
    RunTokensFew(context, r, SentSize(b, k, band.shift), SentBits(b, k, band.shift));
  }

  lemma BandDone(context: nat, b: Block, band: Band, r: nat)
    requires Narrow(b) && band.Valid()
    ensures BandTokens(context, b, band, band.last + 1, r) == [] && TrailingZeros(b, band, band.last + 1, r) == r
  {
  }

  /** The blocks of a restart interval; at its end a pending run is sent. */
  method TokenizeInterval(context: nat, blocks: seq<Block>, band: Band) returns (tokens: seq<Token>)
    requires AllNarrow(blocks) && band.Valid()
    ensures tokens == BlocksTokens(context, blocks, band, 0)
  {
    hide BlocksTokens, TokensOfOne, Narrow;
    tokens := [];
    var eobRun := 0;
    assert blocks[0..] == blocks;
    for i := 0 to |blocks|
      invariant 0 <= eobRun < MAX_EOB_RUN && AllNarrow(blocks[i..])
      invariant tokens + BlocksTokens(context, blocks[i..], band, eobRun) == BlocksTokens(context, blocks, band, 0)
    {
      NextBlock(context, blocks[i..], band, eobRun);
      assert blocks[i..][0] == blocks[i] && blocks[i..][1..] == blocks[i + 1..];
      ghost var (mine, run) := TokensOfOne(context, blocks[i], band, eobRun);
      Associate(tokens, mine, BlocksTokens(context, blocks[i + 1..], band, run));
      tokens, eobRun := TokenizeBlock(context, blocks[i], band, tokens, eobRun);
    }
    NextBlock(context, blocks[|blocks|..], band, eobRun);
    if eobRun > 0 {
      tokens := tokens + [EobRunToken(context, eobRun)];
    }
  }

  lemma NextBlock(context: nat, blocks: seq<Block>, band: Band, eobRun: nat)
    requires AllNarrow(blocks) && band.Valid() && eobRun < MAX_EOB_RUN
    ensures blocks == [] ==> BlocksTokens(context, blocks, band, eobRun) == if eobRun == 0 then [] else [EobRunToken(context, eobRun)]
    ensures blocks != [] ==>
      var (mine, run) := TokensOfOne(context, blocks[0], band, eobRun);
      AllNarrow(blocks[1..]) && BlocksTokens(context, blocks, band, eobRun) == mine + BlocksTokens(context, blocks[1..], band, run)
  {
  }
}
