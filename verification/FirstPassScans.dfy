/** The scan of a first AC pass, from its blocks to the bytes that reach the application (TokenizeACProgressiveScan in
    lib/jpegli/entropy_coding.cc and WriteTokens in lib/jpegli/bitstream.cc). */
module FirstPassScans {
  import opened Arithmetic
  import opened BitStrings
  import opened BitWriter
  import opened EntropyBytes
  import opened ScanWriter
  import opened BlockSymbols
  import opened BlockTokens
  import opened ProgressiveBlocks
  import RefinementScans
  import TokenRoundTrip

  predicate EveryNarrow(intervals: seq<seq<Block>>) {
    forall k :: 0 <= k < |intervals| ==> AllNarrow(intervals[k])
  }

  /** The tokens of a scan, restart interval by restart interval. */
  function TokensOfScan(context: nat, intervals: seq<seq<Block>>, band: Band): seq<Token>
    requires EveryNarrow(intervals) && band.Valid()
  {
    if intervals == [] then [] else
      TokensOfScan(context, intervals[..|intervals| - 1], band) + BlocksTokens(context, intervals[|intervals| - 1], band, 0)
  }

  /** The number of tokens up to the end of each interval. */
  function TokenEnds(context: nat, intervals: seq<seq<Block>>, band: Band): (ends: seq<nat>)
    requires EveryNarrow(intervals) && band.Valid()
    ensures |ends| == |intervals|
  {
    seq(|intervals|, k requires 0 <= k < |intervals| => |TokensOfScan(context, intervals[..k + 1], band)|)
  }

  lemma NextTokens(context: nat, intervals: seq<seq<Block>>, band: Band, k: nat)
    requires EveryNarrow(intervals) && band.Valid() && k < |intervals|
    ensures EveryNarrow(intervals[..k]) && EveryNarrow(intervals[..k + 1])
    ensures TokensOfScan(context, intervals[..k + 1], band)
         == TokensOfScan(context, intervals[..k], band) + BlocksTokens(context, intervals[k], band, 0)
  {
    hide BlocksTokens, AllNarrow;
    assert intervals[..k + 1][..k] == intervals[..k];
  }

  lemma {:induction false} TokensBefore(context: nat, intervals: seq<seq<Block>>, band: Band, k: nat, m: nat)
    requires EveryNarrow(intervals) && band.Valid() && k <= m <= |intervals|
    ensures TokensOfScan(context, intervals[..k], band) <= TokensOfScan(context, intervals[..m], band)
  {
    hide BlocksTokens, TokensOfScan, AllNarrow;
    if k < m {
      TokensBefore(context, intervals, band, k, m - 1);
      NextTokens(context, intervals, band, m - 1);
    }
  }

  /** Every interval has a token: a coefficient, or an end of a band. */
  lemma SomeTokens(context: nat, blocks: seq<Block>, band: Band)
    requires AllNarrow(blocks) && band.Valid() && blocks != []
    ensures BlocksTokens(context, blocks, band, 0) != []
  {
    NarrowFrom(blocks, 1);
    FirstTokens(context, blocks, band);
    SilentFrom(context, blocks[0], band, band.first, 0, blocks[0]);
    hide BandTokens, TrailingZeros, BlocksTokens, Narrow, Filled, EobRunTokens;
    if BandTokens(context, blocks[0], band, band.first, 0) == [] {
      var j := Absorbed(context, blocks[1..], band, 1);
      SomeEobRun(context, 1 + j);
    }
  }

  lemma SomeEobRun(context: nat, run: nat)
    requires 0 < run <= MAX_EOB_RUN
    ensures EobRunTokens(context, run) != []
  {
  }

  /** All intervals; before every one but the first comes a restart. */
  method TokenizeFirstPass(context: nat, intervals: seq<seq<Block>>, band: Band) returns (tokens: seq<Token>, restarts: seq<nat>)
    requires EveryNarrow(intervals) && band.Valid()
    ensures tokens == TokensOfScan(context, intervals, band) && restarts == TokenEnds(context, intervals, band)
  {
    hide BlocksTokens, TokensOfScan, AllNarrow;
    tokens, restarts := [], [];
    NoTokens(context, band);
    assert intervals[..0] == [];
    for k := 0 to |intervals|
      invariant tokens == TokensOfScan(context, intervals[..k], band)
      invariant |restarts| == k && forall i :: 0 <= i < k ==> restarts[i] == |TokensOfScan(context, intervals[..i + 1], band)|
    {
      NextTokens(context, intervals, band, k);
      var more := TokenizeInterval(context, intervals[k], band);
      tokens := tokens + more;
      restarts := restarts + [|tokens|];
    }
    assert intervals[..|intervals|] == intervals;
    assert restarts == TokenEnds(context, intervals, band);
  }

  lemma NoTokens(context: nat, band: Band)
    requires band.Valid()
    ensures TokensOfScan(context, [], band) == []
  {
  }

  predicate EveryWritable(coding: Coding, context: nat, intervals: seq<seq<Block>>, band: Band)
    requires EveryNarrow(intervals) && band.Valid()
  {
    forall k :: 0 <= k < |intervals| ==> Writable(coding, BlocksTokens(context, intervals[k], band, 0))
  }

  lemma {:induction false} AllWritable(coding: Coding, context: nat, intervals: seq<seq<Block>>, band: Band)
    requires EveryNarrow(intervals) && band.Valid() && EveryWritable(coding, context, intervals, band)
    ensures Writable(coding, TokensOfScan(context, intervals, band))
  {
    hide BlocksTokens, AllNarrow;
    if intervals != [] {
      AllWritable(coding, context, intervals[..|intervals| - 1], band);
    }
  }

  /** The bits of the segments, one for each interval. */
  function SegmentsOfPass(coding: Coding, context: nat, intervals: seq<seq<Block>>, band: Band): (segs: seq<Bits>)
    requires EveryNarrow(intervals) && band.Valid() && EveryWritable(coding, context, intervals, band)
    ensures |segs| == |intervals|
  {
    seq(|intervals|, k requires 0 <= k < |intervals| => BitsOfTokens(coding, BlocksTokens(context, intervals[k], band, 0)))
  }

  lemma PieceOfPass(coding: Coding, context: nat, intervals: seq<seq<Block>>, band: Band, k: nat)
    requires EveryNarrow(intervals) && band.Valid() && EveryWritable(coding, context, intervals, band) && k < |intervals| && intervals[k] != []
    requires Writable(coding, TokensOfScan(context, intervals, band))
    ensures var tokens, start, end := TokensOfScan(context, intervals, band), SegmentStart(TokenEnds(context, intervals, band), 0, k),
                                      TokenEnds(context, intervals, band)[k];
      && start < end <= |tokens|
      && Concat(ScanItems(coding, tokens)[start..end]) == BitsOfTokens(coding, BlocksTokens(context, intervals[k], band, 0))
  {
    hide BlocksTokens, TokensOfScan, AllNarrow, Concat, ScanItems, Writable;
    NoTokens(context, band);
    NextTokens(context, intervals, band, k);
    TokensBefore(context, intervals, band, k + 1, |intervals|);
    assert intervals[..|intervals|] == intervals && intervals[..0] == [];
    SomeTokens(context, intervals[k], band);
    var before, mine := TokensOfScan(context, intervals[..k], band), BlocksTokens(context, intervals[k], band, 0);
    var start, end := |before|, |before + mine|;
    assert SegmentStart(TokenEnds(context, intervals, band), 0, k) == start && TokenEnds(context, intervals, band)[k] == end;
    assert TokensOfScan(context, intervals, band)[start..end] == mine;
    TokenRoundTrip.WritableParts(coding, TokensOfScan(context, intervals, band), start, end);
  }

  /** Cut at its restarts, the scan has one segment for each interval. */
  lemma CutIsPass(coding: Coding, context: nat, intervals: seq<seq<Block>>, band: Band)
    requires EveryNarrow(intervals) && band.Valid() && EveryWritable(coding, context, intervals, band)
    requires intervals != [] && forall k :: 0 <= k < |intervals| ==> intervals[k] != []
    ensures Writable(coding, TokensOfScan(context, intervals, band))
    ensures var items, ends := ScanItems(coding, TokensOfScan(context, intervals, band)), TokenEnds(context, intervals, band);
      && CutsInto(items, 0, ends) && ends[|ends| - 1] == |items| && Cut(items, 0, ends) == SegmentsOfPass(coding, context, intervals, band)
  {
    hide BlocksTokens, TokensOfScan, AllNarrow, Concat, ScanItems, Writable, Cut, BitsOfTokens, SegmentStart, EveryWritable, EveryNarrow;
    AllWritable(coding, context, intervals, band);
    var items, ends := ScanItems(coding, TokensOfScan(context, intervals, band)), TokenEnds(context, intervals, band);
    var segs := SegmentsOfPass(coding, context, intervals, band);
    forall k | 0 <= k < |intervals|
      ensures SegmentStart(ends, 0, k) < ends[k] <= |items|
      ensures Concat(items[SegmentStart(ends, 0, k)..ends[k]]) == segs[k]
    {
      PieceOfPass(coding, context, intervals, band, k);
    }
    TokenRoundTrip.CutOfPieces(items, 0, ends, segs);
    assert intervals[..|intervals|] == intervals;
  }

  /** The encoder, from the blocks of a first pass to the bytes that reach the application. */
  method EncodeFirstPass(coding: Coding, context: nat, intervals: seq<seq<Block>>, band: Band, bw: JpegBitWriter) returns (r: ScanResult)
    requires EveryNarrow(intervals) && band.Valid() && EveryWritable(coding, context, intervals, band)
    requires intervals != [] && forall k :: 0 <= k < |intervals| ==> intervals[k] != []
    requires bw.Valid() && bw.Bits() == [] && bw.healthy
    modifies bw, bw.dest
    ensures r == Written ==> bw.dest.written == old(bw.base) + ScanBytes(SegmentsOfPass(coding, context, intervals, band))
    ensures r == Suspended ==> bw.dest.refills == [] && bw.dest.freeInBuffer == 0
  {
    hide TokensOfScan, ScanItems, Writable, Cut, CutsInto, ScanBytes, SegmentsOfPass, EveryWritable, EveryNarrow, JpegBitWriter.Bits, AllKnown, Concat;
    var tokens, restarts := TokenizeFirstPass(context, intervals, band);
    CutIsPass(coding, context, intervals, band);
    OneArray(tokens);
    var sti := ScanTokenInfo(0, |tokens|, restarts);
    r := RefinementScans.WriteScanData(bw, band.first, 0, RefinementScans.FirstPass(coding, [tokens], sti));
  }

  lemma OneArray(tokens: seq<Token>)
    ensures Concat([tokens]) == tokens
  {
    assert Concat([tokens]) == Concat([tokens][..0]) + tokens;
  }
}
