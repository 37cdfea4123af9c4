/**
 From the MCUs of a sequential scan to its bytes and back: the tokens, cut at the restarts, carry the bits of the
 restart intervals, so that what is written is what the decoder reads.
 */
module TokenRoundTrip {
  import opened Arithmetic
  import opened BitStrings
  import opened BitWriter
  import opened EntropyBytes
  import opened BlockSymbols
  import opened BlockDecoding
  import opened BlockRoundTrip
  import opened PredictedBlocks
  import opened BlockTokens
  import opened Tokenizer
  import opened ScanSteps
  import opened ScanRoundTrip
  import opened ChunkedScan
  import opened StitchedScan
  import opened InputStitching
  import opened ScanWriter
  import opened RefinementScans

  /** The contexts of the blocks have their code tables. */
  predicate HasTables(coding: ScanWriter.Coding, contexts: seq<Contexts>, codes: seq<Codes>) {
    |contexts| == |codes| && forall i :: 0 <= i < |codes| ==>
      HasTable(coding, contexts[i].dc, codes[i].dc) && HasTable(coding, contexts[i].ac, codes[i].ac)
  }

  lemma SmallIsNarrow(b: Block)
    requires Decodable(b)
    ensures Narrow(b) && InRange(b)
  {
  }

  lemma {:induction false} McuCarriesBits(coding: ScanWriter.Coding, kinds: seq<BlockKind>, contexts: seq<Contexts>, codes: seq<Codes>,
                                          lastDc: seq<int>, blocks: seq<Block>)
    requires ScanRoundTrip.Coding(kinds, codes, |lastDc|) && McuCodable(kinds, codes, lastDc, blocks) && HasTables(coding, contexts, codes)
    ensures McuNarrow(kinds, lastDc, blocks)
    ensures var tokens := McuTokens(kinds, contexts, lastDc, blocks);
            Writable(coding, tokens) && BitsOfTokens(coding, tokens) == McuBits(kinds, codes, lastDc, blocks) && AllCoded(coding, tokens)
    decreases |kinds|
  {
    hide TableOf, HasTable, Codable, Decodable, Narrow, InRange, BitsOfBlock, TokensOfBlock, Writable, BitsOfTokens, AllCoded;
    if kinds == [] {
      BitsOfNone(coding);
      NoneIsCoded(coding);
    } else {
      var last, next := lastDc[kinds[0].component], lastDc[kinds[0].component := blocks[0][0]];
      CodingParts(kinds, codes, |lastDc|);
      SmallIsNarrow(Residual(blocks[0], last));
      TokensCarryBits(coding, contexts[0].dc, contexts[0].ac, Residual(blocks[0], last), kinds[0].dc, kinds[0].ac, codes[0].dc, codes[0].ac);
      BlockIsCoded(coding, contexts[0].dc, contexts[0].ac, Residual(blocks[0], last), kinds[0].dc, kinds[0].ac, codes[0].dc, codes[0].ac);
      McuCarriesBits(coding, kinds[1..], contexts[1..], codes[1..], next, blocks[1..]);
      BitsOfSum(coding, TokensOfBlock(Residual(blocks[0], last), contexts[0].dc, contexts[0].ac),
                McuTokens(kinds[1..], contexts[1..], next, blocks[1..]));
      CodedSum(coding, TokensOfBlock(Residual(blocks[0], last), contexts[0].dc, contexts[0].ac),
               McuTokens(kinds[1..], contexts[1..], next, blocks[1..]));
    }
  }

  lemma {:induction false} IntervalCarriesBits(coding: ScanWriter.Coding, scan: Scan, contexts: seq<Contexts>, codes: seq<Codes>,
                                               lastDc: seq<int>, mcus: seq<seq<Block>>)
    requires scan.Valid() && |lastDc| == scan.components && ScanRoundTrip.Coding(scan.kinds, codes, |lastDc|)
    requires IntervalCodable(scan, codes, lastDc, mcus) && HasTables(coding, contexts, codes)
    ensures IntervalNarrow(scan, lastDc, mcus)
    ensures var tokens := IntervalTokens(scan, contexts, lastDc, mcus);
            Writable(coding, tokens) && BitsOfTokens(coding, tokens) == IntervalBits(scan, codes, lastDc, mcus) && AllCoded(coding, tokens)
    decreases |mcus|
  {
    hide HasTables, McuCodable, McuNarrow, McuTokens, McuBits, Writable, BitsOfTokens, DcAfter, AllCoded;
    if mcus == [] {
      BitsOfNone(coding);
      NoneIsCoded(coding);
    } else {
      FirstOfInterval(scan, codes, lastDc, mcus);
      TablesForAll(coding, contexts, codes, scan, |lastDc|);
      var next := DcAfter(scan.kinds, lastDc, mcus[0]);
      McuCarriesBits(coding, scan.kinds, contexts, codes, lastDc, mcus[0]);
      IntervalCarriesBits(coding, scan, contexts, codes, next, mcus[1..]);
      BitsOfSum(coding, McuTokens(scan.kinds, contexts, lastDc, mcus[0]), IntervalTokens(scan, contexts, next, mcus[1..]));
      CodedSum(coding, McuTokens(scan.kinds, contexts, lastDc, mcus[0]), IntervalTokens(scan, contexts, next, mcus[1..]));
    }
  }

  lemma TablesForAll(coding: ScanWriter.Coding, contexts: seq<Contexts>, codes: seq<Codes>, scan: Scan, components: nat)
    requires HasTables(coding, contexts, codes) && ScanRoundTrip.Coding(scan.kinds, codes, components)
    ensures |contexts| == |scan.kinds|
  {
    hide TableOf;
  }

  // ---------------------------------------------------------------- cut at the restarts

  lemma DividedIsTokenizable(coding: ScanWriter.Coding, scan: Scan, contexts: seq<Contexts>, codes: seq<Codes>, intervals: seq<seq<seq<Block>>>)
    requires Divided(scan, codes, intervals) && HasTables(coding, contexts, codes)
    ensures Tokenizable(scan, contexts, intervals)
    ensures forall i :: 0 <= i < |intervals| ==>
      var tokens := IntervalTokens(scan, contexts, NoPrediction(scan), intervals[i]);
      Writable(coding, tokens) && BitsOfTokens(coding, tokens) == SegmentsOf(scan, codes, intervals)[i] && AllCoded(coding, tokens)
  {
    hide HasTables, IntervalNarrow, IntervalTokens, IntervalBits, Writable, BitsOfTokens, IntervalCodable, AllCoded;
    TablesForAll(coding, contexts, codes, scan, scan.components);
    forall i | 0 <= i < |intervals|
      ensures IntervalNarrow(scan, NoPrediction(scan), intervals[i])
      ensures var tokens := IntervalTokens(scan, contexts, NoPrediction(scan), intervals[i]);
              Writable(coding, tokens) && BitsOfTokens(coding, tokens) == SegmentsOf(scan, codes, intervals)[i] && AllCoded(coding, tokens)
    {
      IntervalCarriesBits(coding, scan, contexts, codes, NoPrediction(scan), intervals[i]);
    }
  }

  /** The tokens of the first k intervals. */
  ghost function TokensBefore(scan: Scan, contexts: seq<Contexts>, intervals: seq<seq<seq<Block>>>, k: nat): seq<Token>
    requires Tokenizable(scan, contexts, intervals) && k <= |intervals|
  {
    TokensOfIntervals(scan, contexts, intervals[..k])
  }

  lemma TokensBeforeNext(scan: Scan, contexts: seq<Contexts>, intervals: seq<seq<seq<Block>>>, k: nat)
    requires Tokenizable(scan, contexts, intervals) && k < |intervals|
    ensures TokensBefore(scan, contexts, intervals, k + 1)
         == TokensBefore(scan, contexts, intervals, k) + IntervalTokens(scan, contexts, NoPrediction(scan), intervals[k])
  {
    NextInterval(scan, contexts, 0, intervals, k);
  }

  lemma {:induction false} TokensBeforeAre(scan: Scan, contexts: seq<Contexts>, intervals: seq<seq<seq<Block>>>, k: nat, m: nat)
    requires Tokenizable(scan, contexts, intervals) && k <= m <= |intervals|
    ensures TokensBefore(scan, contexts, intervals, k) <= TokensBefore(scan, contexts, intervals, m)
  {
    hide TokensBefore, IntervalTokens, Tokenizable;
    if k < m {
      TokensBeforeAre(scan, contexts, intervals, k, m - 1);
      TokensBeforeNext(scan, contexts, intervals, m - 1);
    }
  }

  lemma {:induction false} EndAt(scan: Scan, contexts: seq<Contexts>, offset: nat, intervals: seq<seq<seq<Block>>>, m: nat, k: nat)
    requires Tokenizable(scan, contexts, intervals) && k < m <= |intervals|
    ensures Tokenizable(scan, contexts, intervals[..m])
    ensures EndsOf(scan, contexts, offset, intervals[..m])[k] == offset + |TokensBefore(scan, contexts, intervals, k + 1)|
    decreases m
  {
    hide EndsOf, TokensOfIntervals, IntervalTokens, IntervalNarrow;
    NextInterval(scan, contexts, offset, intervals, m - 1);
    if k < m - 1 {
      EndAt(scan, contexts, offset, intervals, m - 1, k);
    }
  }

  lemma EndAtAll(scan: Scan, contexts: seq<Contexts>, offset: nat, intervals: seq<seq<seq<Block>>>, k: nat)
    requires Tokenizable(scan, contexts, intervals) && k < |intervals|
    ensures EndsOf(scan, contexts, offset, intervals)[k] == offset + |TokensBefore(scan, contexts, intervals, k + 1)|
    ensures SegmentStart(EndsOf(scan, contexts, offset, intervals), offset, k) == offset + |TokensBefore(scan, contexts, intervals, k)|
  {
    hide EndsOf, TokensOfIntervals, IntervalTokens, IntervalNarrow;
    assert intervals[..|intervals|] == intervals;
    EndAt(scan, contexts, offset, intervals, |intervals|, k);
    if k > 0 {
      EndAt(scan, contexts, offset, intervals, |intervals|, k - 1);
    } else {
      NoTokensBefore(scan, contexts, intervals);
    }
  }

  lemma AllTokensBefore(scan: Scan, contexts: seq<Contexts>, intervals: seq<seq<seq<Block>>>)
    requires Tokenizable(scan, contexts, intervals)
    ensures TokensBefore(scan, contexts, intervals, |intervals|) == TokensOfIntervals(scan, contexts, intervals)
  {
    hide TokensOfIntervals;
    assert intervals[..|intervals|] == intervals;
  }

  lemma SomeTokens(scan: Scan, contexts: seq<Contexts>, lastDc: seq<int>, mcus: seq<seq<Block>>)
    requires scan.Valid() && |lastDc| == scan.components && |contexts| == |scan.kinds| && IntervalNarrow(scan, lastDc, mcus)
    requires scan.kinds != [] && mcus != []
    ensures IntervalTokens(scan, contexts, lastDc, mcus) != []
  {
    hide McuTokens, McuNarrow;
    McuTokensFew(scan.kinds, contexts, lastDc, mcus[0]);
  }

  lemma WritableParts(coding: ScanWriter.Coding, tokens: seq<Token>, from: nat, to: nat)
    requires Writable(coding, tokens) && from <= to <= |tokens|
    ensures Writable(coding, tokens[from..to]) && ScanItems(coding, tokens)[from..to] == ScanItems(coding, tokens[from..to])
  {
  }

  lemma {:induction false} IntervalsWritable(coding: ScanWriter.Coding, scan: Scan, contexts: seq<Contexts>, intervals: seq<seq<seq<Block>>>, k: nat)
    requires Tokenizable(scan, contexts, intervals) && k <= |intervals|
    requires forall i :: 0 <= i < |intervals| ==> var tokens := IntervalTokens(scan, contexts, NoPrediction(scan), intervals[i]);
                                                  Writable(coding, tokens) && AllCoded(coding, tokens)
    ensures Writable(coding, TokensBefore(scan, contexts, intervals, k)) && AllCoded(coding, TokensBefore(scan, contexts, intervals, k))
  {
    if k > 0 {
      IntervalsWritable(coding, scan, contexts, intervals, k - 1);
      TokensBeforeNext(scan, contexts, intervals, k - 1);
      hide TokensBefore, IntervalTokens, BitsOfTokens;
      var a, b := TokensBefore(scan, contexts, intervals, k - 1), IntervalTokens(scan, contexts, NoPrediction(scan), intervals[k - 1]);
      BitsOfSum(coding, a, b);
      CodedSum(coding, a, b);
    }
  }

  lemma {:induction false} Increasing(ends: seq<nat>, i: nat, j: nat)
    requires i < j < |ends| && forall k :: 0 < k < |ends| ==> ends[k - 1] < ends[k]
    ensures ends[i] < ends[j]
    decreases j
  {
    if i < j - 1 {
      Increasing(ends, i, j - 1);
    }
  }

  /** Segment k of a cut, for all k. */
  lemma CutOfPieces(items: seq<Bits>, first: nat, ends: seq<nat>, segs: seq<Bits>)
    requires |ends| == |segs| > 0
    requires forall k :: 0 <= k < |ends| ==> SegmentStart(ends, first, k) < ends[k] <= |items|
    requires forall k :: 0 <= k < |ends| ==> Concat(items[SegmentStart(ends, first, k)..ends[k]]) == segs[k]
    ensures CutsInto(items, first, ends) && Cut(items, first, ends) == segs
  {
    hide Concat, Cut;
    assert SegmentStart(ends, first, 0) < ends[0];
    forall i, j | 0 <= i < j < |ends|
      ensures ends[i] < ends[j]
    {
      forall k | 0 < k < |ends|
        ensures ends[k - 1] < ends[k]
      {
        assert SegmentStart(ends, first, k) < ends[k];
      }
      Increasing(ends, i, j);
    }
    forall k | 0 <= k < |ends|
      ensures Cut(items, first, ends)[k] == segs[k]
    {
      CutAt(items, first, ends, k);
    }
  }

  /** Interval k has its tokens between two ends. */
  lemma TokensBetween(scan: Scan, contexts: seq<Contexts>, intervals: seq<seq<seq<Block>>>, before: seq<Token>, after: seq<Token>, k: nat)
    requires Tokenizable(scan, contexts, intervals) && k < |intervals| && scan.kinds != [] && intervals[k] != []
    ensures var all, ends := before + TokensOfIntervals(scan, contexts, intervals) + after, EndsOf(scan, contexts, |before|, intervals);
      && SegmentStart(ends, |before|, k) < ends[k] <= |all|
      && all[SegmentStart(ends, |before|, k)..ends[k]] == IntervalTokens(scan, contexts, NoPrediction(scan), intervals[k])
  {
    hide IntervalTokens, TokensOfIntervals, TokensBefore, EndsOf, IntervalNarrow, SegmentStart, Scan.Valid;
    SomeTokensAt(scan, contexts, intervals, k);
    EndAtAll(scan, contexts, |before|, intervals, k);
    TokensBeforeNext(scan, contexts, intervals, k);
    TokensBeforeAre(scan, contexts, intervals, k + 1, |intervals|);
    AllTokensBefore(scan, contexts, intervals);
    SliceAt(before, TokensBefore(scan, contexts, intervals, k), IntervalTokens(scan, contexts, NoPrediction(scan), intervals[k]),
            TokensOfIntervals(scan, contexts, intervals), after, SegmentStart(EndsOf(scan, contexts, |before|, intervals), |before|, k),
            EndsOf(scan, contexts, |before|, intervals)[k]);
  }

  lemma SomeTokensAt(scan: Scan, contexts: seq<Contexts>, intervals: seq<seq<seq<Block>>>, k: nat)
    requires Tokenizable(scan, contexts, intervals) && k < |intervals| && scan.kinds != [] && intervals[k] != []
    ensures IntervalTokens(scan, contexts, NoPrediction(scan), intervals[k]) != []
  {
    SomeTokens(scan, contexts, NoPrediction(scan), intervals[k]);
  }

  lemma PieceAt(coding: ScanWriter.Coding, scan: Scan, contexts: seq<Contexts>, intervals: seq<seq<seq<Block>>>,
                before: seq<Token>, after: seq<Token>, k: nat)
    requires Tokenizable(scan, contexts, intervals) && k < |intervals| && scan.kinds != [] && intervals[k] != []
    requires Writable(coding, before + TokensOfIntervals(scan, contexts, intervals) + after)
    ensures var all, ends := before + TokensOfIntervals(scan, contexts, intervals) + after, EndsOf(scan, contexts, |before|, intervals);
      var tokens := IntervalTokens(scan, contexts, NoPrediction(scan), intervals[k]);
      && SegmentStart(ends, |before|, k) < ends[k] <= |all| && Writable(coding, tokens)
      && Concat(ScanItems(coding, all)[SegmentStart(ends, |before|, k)..ends[k]]) == BitsOfTokens(coding, tokens)
  {
    hide *;
    TokensBetween(scan, contexts, intervals, before, after, k);
    var all, ends := before + TokensOfIntervals(scan, contexts, intervals) + after, EndsOf(scan, contexts, |before|, intervals);
    WritableParts(coding, all, SegmentStart(ends, |before|, k), ends[k]);
    BitsAre(coding, all[SegmentStart(ends, |before|, k)..ends[k]]);
  }

  lemma BitsAre(coding: ScanWriter.Coding, tokens: seq<Token>)
    requires Writable(coding, tokens)
    ensures BitsOfTokens(coding, tokens) == Concat(ScanItems(coding, tokens))
  {
  }

  lemma NoTokensBefore(scan: Scan, contexts: seq<Contexts>, intervals: seq<seq<seq<Block>>>)
    requires Tokenizable(scan, contexts, intervals)
    ensures TokensBefore(scan, contexts, intervals, 0) == []
  {
  }

  lemma SliceAt<T>(before: seq<T>, some: seq<T>, part: seq<T>, mine: seq<T>, after: seq<T>, start: nat, end: nat)
    requires some + part <= mine && start == |before| + |some| && end == |before| + |some + part|
    ensures start <= end <= |before + mine + after| && (before + mine + after)[start..end] == part
  {
  }

  lemma AllWritable(coding: ScanWriter.Coding, scan: Scan, contexts: seq<Contexts>, intervals: seq<seq<seq<Block>>>,
                    before: seq<Token>, after: seq<Token>)
    requires Tokenizable(scan, contexts, intervals) && Writable(coding, before) && Writable(coding, after)
    requires forall i :: 0 <= i < |intervals| ==> var tokens := IntervalTokens(scan, contexts, NoPrediction(scan), intervals[i]);
                                                  Writable(coding, tokens) && AllCoded(coding, tokens)
    ensures Writable(coding, before + TokensOfIntervals(scan, contexts, intervals) + after)
    ensures AllCoded(coding, TokensOfIntervals(scan, contexts, intervals))
  {
    hide Tokenizable, IntervalTokens, TokensOfIntervals, TokensBefore, Writable, BitsOfTokens, AllCoded;
    AllTokensBefore(scan, contexts, intervals);
    IntervalsWritable(coding, scan, contexts, intervals, |intervals|);
    BitsOfSum(coding, before, TokensOfIntervals(scan, contexts, intervals));
    BitsOfSum(coding, before + TokensOfIntervals(scan, contexts, intervals), after);
  }

  /** The items of the scan, wherever its tokens lie among those of other scans, are cut into the bits of its intervals. */
  lemma CutIsSegments(coding: ScanWriter.Coding, scan: Scan, contexts: seq<Contexts>, codes: seq<Codes>, intervals: seq<seq<seq<Block>>>,
                      before: seq<Token>, after: seq<Token>)
    requires Divided(scan, codes, intervals) && HasTables(coding, contexts, codes) && scan.kinds != []
    requires forall i :: 0 <= i < |intervals| ==> intervals[i] != []
    requires Writable(coding, before) && Writable(coding, after)
    ensures Tokenizable(scan, contexts, intervals)
    ensures var all, ends := before + TokensOfIntervals(scan, contexts, intervals) + after, EndsOf(scan, contexts, |before|, intervals);
      && Writable(coding, all) && CutsInto(ScanItems(coding, all), |before|, ends)
      && ends[|ends| - 1] == |before| + |TokensOfIntervals(scan, contexts, intervals)|
      && Cut(ScanItems(coding, all), |before|, ends) == SegmentsOf(scan, codes, intervals)
      && AllCoded(coding, TokensOfIntervals(scan, contexts, intervals))
  {
    hide Divided, HasTables, Tokenizable, IntervalTokens, TokensOfIntervals, EndsOf, SegmentsOf, Writable, ScanItems, BitsOfTokens, Cut, Concat, TokensBefore, AllCoded;
    var n := |intervals|;
    SomeIntervals(scan, codes, intervals);
    DividedIsTokenizable(coding, scan, contexts, codes, intervals);
    AllTokensBefore(scan, contexts, intervals);
    AllWritable(coding, scan, contexts, intervals, before, after);
    var mine, ends := TokensOfIntervals(scan, contexts, intervals), EndsOf(scan, contexts, |before|, intervals);
    var items := ScanItems(coding, before + mine + after);
    forall k | 0 <= k < n
      ensures SegmentStart(ends, |before|, k) < ends[k] <= |items|
      ensures Concat(items[SegmentStart(ends, |before|, k)..ends[k]]) == SegmentsOf(scan, codes, intervals)[k]
    {
      PieceAt(coding, scan, contexts, intervals, before, after, k);
    }
    CutOfPieces(items, |before|, ends, SegmentsOf(scan, codes, intervals));
    EndAtAll(scan, contexts, |before|, intervals, n - 1);
  }

  lemma SomeIntervals(scan: Scan, codes: seq<Codes>, intervals: seq<seq<seq<Block>>>)
    requires Divided(scan, codes, intervals)
    ensures intervals != []
  {
    hide IntervalCodable, ScanRoundTrip.Coding;
  }

  // ---------------------------------------------------------------- the whole way

  /** The MCUs can be written, and are within the limits of the decoder. */
  ghost predicate ScanCodable(scan: Scan, codes: seq<Codes>, mcus: seq<seq<Block>>) {
    && scan.Valid() && ScanRoundTrip.Coding(scan.kinds, codes, scan.components) && scan.kinds != [] && mcus != []
    && forall i :: 0 <= i < |Divide(mcus, scan.interval)| ==> IntervalCodable(scan, codes, NoPrediction(scan), Divide(mcus, scan.interval)[i])
  }

  lemma {:induction false} McusOfDivided(mcus: seq<seq<Block>>, interval: nat, k: nat)
    requires k < |Divide(mcus, interval)|
    ensures IntervalStart(interval, k) <= |mcus| && McusFrom(Divide(mcus, interval), k) == mcus[IntervalStart(interval, k)..]
    decreases |Divide(mcus, interval)| - k
  {
    hide Divide, IntervalStart;
    var intervals := Divide(mcus, interval);
    DivideAt(mcus, interval, k);
    NextStart(interval, k);
    McusNext(intervals, k);
    hide McusFrom;
    if k + 1 < |intervals| {
      McusOfDivided(mcus, interval, k + 1);
    } else {
      assert intervals[k] + [] == intervals[k];
    }
  }

  lemma McusNext(intervals: seq<seq<seq<Block>>>, k: nat)
    requires k < |intervals|
    ensures McusFrom(intervals, k) == intervals[k] + if k + 1 == |intervals| then [] else McusFrom(intervals, k + 1)
  {
  }

  lemma DivideIsDivided(scan: Scan, codes: seq<Codes>, mcus: seq<seq<Block>>)
    requires ScanCodable(scan, codes, mcus)
    ensures Divided(scan, codes, Divide(mcus, scan.interval)) && McusFrom(Divide(mcus, scan.interval), 0) == mcus
    ensures forall i :: 0 <= i < |Divide(mcus, scan.interval)| ==> Divide(mcus, scan.interval)[i] != []
  {
    hide IntervalCodable, ScanRoundTrip.Coding, Divide, McusFrom;
    var intervals := Divide(mcus, scan.interval);
    forall i | 0 <= i < |intervals|
      ensures intervals[i] != []
      ensures scan.interval > 0 ==> if i < |intervals| - 1 then |intervals[i]| == scan.interval else |intervals[i]| <= scan.interval
      ensures scan.interval == 0 ==> |intervals| == 1
    {
      DivideAt(mcus, scan.interval, i);
      if i + 1 < |intervals| {
        DivideAt(mcus, scan.interval, i + 1);
      }
    }
    McusOfDivided(mcus, scan.interval, 0);
    assert mcus[0..] == mcus;
  }

  /** The bytes of a scan. */
  ghost function BytesOfScan(scan: Scan, codes: seq<Codes>, mcus: seq<seq<Block>>): seq<Byte>
    requires ScanCodable(scan, codes, mcus)
  {
    DivideIsDivided(scan, codes, mcus);
    ScanBytes(SegmentsOf(scan, codes, Divide(mcus, scan.interval)))
  }

  /** The tokens of a scan, with its restarts, are ready to be written, as these bytes. */
  ghost predicate Ready(scanTokens: ScanTokens, bytes: seq<Byte>) {
    && scanTokens.FirstPass? && scanTokens.Writable() && scanTokens.WellCut() && scanTokens.Known()
    && ScanBytes(Cut(scanTokens.Items(), scanTokens.First(), scanTokens.Restarts())) == bytes
  }

  lemma CutIsReady(coding: ScanWriter.Coding, arrays: seq<seq<Token>>, before: seq<Token>, mine: seq<Token>, ends: seq<nat>, segs: seq<Bits>)
    requires Concat(arrays) == before + mine && Writable(coding, before + mine) && CutsInto(ScanItems(coding, before + mine), |before|, ends)
    requires ends[|ends| - 1] == |before| + |mine| && Cut(ScanItems(coding, before + mine), |before|, ends) == segs && AllCoded(coding, mine)
    ensures Ready(FirstPass(coding, arrays, ScanTokenInfo(|before|, |mine|, ends)), ScanBytes(segs))
  {
    hide Concat, CutsInto, ScanItems, Cut, ScanBytes, AllKnown, AllCoded, Writable;
    CodedIsKnown(coding, before, mine);
  }

  lemma ScanIsReady(coding: ScanWriter.Coding, scan: Scan, contexts: seq<Contexts>, codes: seq<Codes>, mcus: seq<seq<Block>>,
                    before: seq<Token>, arrays: seq<seq<Token>>, sti: ScanTokenInfo)
    requires ScanCodable(scan, codes, mcus) && HasTables(coding, contexts, codes) && Writable(coding, before)
    requires Tokenizable(scan, contexts, Divide(mcus, scan.interval))
    requires var intervals := Divide(mcus, scan.interval);
             Concat(arrays) == before + TokensOfIntervals(scan, contexts, intervals)
             && sti == ScanTokenInfo(|before|, |TokensOfIntervals(scan, contexts, intervals)|, EndsOf(scan, contexts, |before|, intervals))
    ensures Ready(FirstPass(coding, arrays, sti), BytesOfScan(scan, codes, mcus))
  {
    DivideIsDivided(scan, codes, mcus);
    var intervals := Divide(mcus, scan.interval);
    hide Divided, Tokenizable, TokensOfIntervals, EndsOf, SegmentsOf, Divide, AllCoded, Writable, CutsInto, Ready, Concat, Cut, ScanItems, ScanBytes;
    var mine := TokensOfIntervals(scan, contexts, intervals);
    NothingMore(coding, before + mine);
    CutIsSegments(coding, scan, contexts, codes, intervals, before, []);
    CutIsReady(coding, arrays, before, mine, EndsOf(scan, contexts, |before|, intervals), SegmentsOf(scan, codes, intervals));
  }

  lemma NothingMore(coding: ScanWriter.Coding, tokens: seq<Token>)
    ensures tokens + [] == tokens && Writable(coding, [])
  {
  }

  lemma MayTokenize(coding: ScanWriter.Coding, scan: Scan, contexts: seq<Contexts>, codes: seq<Codes>, mcus: seq<seq<Block>>)
    requires ScanCodable(scan, codes, mcus) && HasTables(coding, contexts, codes)
    ensures Tokenizable(scan, contexts, Divide(mcus, scan.interval)) && scan.kinds != []
  {
    DivideIsDivided(scan, codes, mcus);
    hide Divided, Tokenizable, Divide;
    DividedIsTokenizable(coding, scan, contexts, codes, Divide(mcus, scan.interval));
  }

  lemma CodedIsKnown(coding: ScanWriter.Coding, before: seq<Token>, mine: seq<Token>)
    requires Writable(coding, before + mine) && AllCoded(coding, mine)
    ensures AllKnown(ScanItems(coding, before + mine), |before|, |before| + |mine|)
  {
    var items := ScanItems(coding, before + mine);
    forall i | |before| <= i < |before| + |mine|
      ensures items[i] != []
    {
      var t := mine[i - |before|];
      assert (before + mine)[i] == t && items[i] == coding.TokenBits(t) && coding.Depth(t) > 0;
    }
  }

  /** The encoder, from the MCUs of a scan to the bytes that reach the application. The tokens of other scans may be in
      the arrays before. */
  method EncodeScan(coding: ScanWriter.Coding, scan: Scan, contexts: seq<Contexts>, mcus: seq<seq<Block>>, mcuRows: nat, mcusPerRow: nat,
                    maxTokensPerRow: nat, ta: TokenArrays, bw: JpegBitWriter, ghost codes: seq<Codes>) returns (r: ScanResult)
    requires ScanCodable(scan, codes, mcus) && HasTables(coding, contexts, codes)
    requires |mcus| == mcuRows * mcusPerRow && 64 * |scan.kinds| * mcusPerRow <= maxTokensPerRow
    requires ta.Valid() && Writable(coding, ta.All()) && bw.Valid() && bw.Bits() == [] && bw.healthy
    modifies ta, bw, bw.dest
    ensures r == Written || r == ScanResult.Suspended
    ensures r == Written ==> bw.dest.written == old(bw.base) + BytesOfScan(scan, codes, mcus)
    ensures r == ScanResult.Suspended ==> bw.dest.refills == [] && bw.dest.freeInBuffer == 0
  {
    MayTokenize(coding, scan, contexts, codes, mcus);
    hide ScanCodable, Tokenizable, TokensOfIntervals, EndsOf, Divide, BytesOfScan, HasTables, JpegBitWriter.Bits, Ready, Concat, Writable;
    ghost var before := ta.All();
    var sti := TokenizeScan(scan, contexts, mcus, mcuRows, mcusPerRow, maxTokensPerRow, ta);
    ScanIsReady(coding, scan, contexts, codes, mcus, before, ta.arrays, sti);
    r := WriteReady(bw, FirstPass(coding, ta.arrays, sti), BytesOfScan(scan, codes, mcus));
  }

  method WriteReady(bw: JpegBitWriter, scanTokens: ScanTokens, ghost bytes: seq<Byte>) returns (r: ScanResult)
    requires Ready(scanTokens, bytes) && bw.Valid() && bw.Bits() == [] && bw.healthy
    modifies bw, bw.dest
    ensures r == Written || r == ScanResult.Suspended
    ensures r == Written ==> bw.dest.written == old(bw.base) + bytes
    ensures r == ScanResult.Suspended ==> bw.dest.refills == [] && bw.dest.freeInBuffer == 0
  {
    hide ScanTokens.Writable, ScanTokens.WellCut, ScanTokens.Known, ScanTokens.Items, Cut, ScanBytes, JpegBitWriter.Bits;
    r := WriteScanData(bw, 0, 0, scanTokens);
  }

  /** The round trip of a scan: the bytes that the encoder writes, with a marker after them, come back as the MCUs. */
  lemma EncodedScanIsRead(scan: Scan, codes: seq<Codes>, mcus: seq<seq<Block>>, after: seq<Byte>)
    requires ScanCodable(scan, codes, mcus) && EndsScan(after)
    ensures var data := BytesOfScan(scan, codes, mcus) + after;
            At(scan, data, Beginning(scan)) && McuRun(scan, data, Beginning(scan), |mcus|).0 == mcus
  {
    hide ScanCodable, At, McuRun, Divided, SegmentsOf, ScanBytes, Divide, McusFrom;
    DivideIsDivided(scan, codes, mcus);
    ScanRoundTrips(scan, codes, Divide(mcus, scan.interval), after);
  }

  /** Also through the stitching of the input, and however the bytes of a scan arrive: if the first buffer and what the
      source delivers until it fails to begin with the scan and its marker, then its MCUs are delivered. A source that
      delivers nothing more after it has failed delivers all that it has. */
  method ReadEncodedScan(d: Decoder, ghost scan: Scan, ghost layout: Layout, ghost out: seq<Call> -> ScanState,
                         ghost codes: seq<Codes>, ghost mcus: seq<seq<Block>>, ghost after: seq<Byte>) returns (r: Outcome)
    requires ScanCodable(scan, codes, mcus) && EndsScan(after) && layout.total == |mcus|
    requires d.Valid() && d.calls == [] && d.InStep() && DecodesScan(scan, layout, d.process, out)
    modifies d
    ensures BytesOfScan(scan, codes, mcus) + after <= old(d.Input()) ==> out(d.calls).mcus == mcus
    ensures FailsAtEnd(old(d.answers)) && BytesOfScan(scan, codes, mcus) + after <= old(d.received + BytesOf(d.answers)) ==>
              out(d.calls).mcus == mcus
  {
    hide ScanCodable, DecodesScan, BytesOfScan, At, McuRun, Decoder.Taken, Supplied, FailsAtEnd;
    ghost var input := d.Input();
    SupplyIsAllIff(d.answers);
    ghost var lost, asked;
    r, lost, asked := ReadScan(d, scan, layout, out);
    ghost var bytes := BytesOfScan(scan, codes, mcus);
    if bytes + after <= input {
      assert input == bytes + (after + input[|bytes + after|..]);
      EncodedScanIsRead(scan, codes, mcus, after + input[|bytes + after|..]);
    }
  }
}
