/**
 The tokens of a sequential scan (TokenizeScan in lib/jpegli/entropy_coding.cc): MCUs with DC prediction, and the
 places of the restart markers.
 */
module Tokenizer {
  import opened Arithmetic
  import opened BitStrings
  import opened BitWriter
  import opened ScanWriter
  import opened BlockSymbols
  import opened PredictedBlocks
  import opened BlockTokens
  import opened ScanSteps

  // ---------------------------------------------------------------- token arrays

  /** Arithmetic of size_t. */
  function Wrapped(x: int): (r: uint64)
    ensures 0 <= x < WORD ==> r == x
  {
    x % WORD
  }

  /** The size of the next token array. */
  function EstimateNumTokens(mcuY: nat, mcuRows: nat, numTokens: nat, maxPerRow: nat): (n: nat)
    requires mcuY < mcuRows
    ensures maxPerRow <= n <= (mcuRows - mcuY) * maxPerRow
  {
    var estimate := if mcuY == 0 then 16 * maxPerRow else 4 * mcuRows * numTokens / (3 * mcuY);
    RowFits(mcuRows - mcuY, maxPerRow);
    Min((mcuRows - mcuY) * maxPerRow, Max(maxPerRow, Wrapped(estimate - numTokens)))
  }

  lemma RowFits(rows: nat, maxPerRow: nat)
    requires rows > 0
    ensures maxPerRow <= rows * maxPerRow
  {
    if rows > 1 && maxPerRow > 0 {
      MulBounds(rows - 1, maxPerRow);
    }
    assert rows * maxPerRow == (rows - 1) * maxPerRow + maxPerRow;
  }

  /** The tokens of all scans, in arrays of limited size. */
  class TokenArrays {
    var arrays: seq<seq<Token>>
    var hasArray: bool
    var numTokens: nat              // the size of the current array, which is the last one
    var totalNumTokens: nat         // in the arrays before

    ghost predicate Valid()
      reads this
    {
      && arrays != [] && |arrays[|arrays| - 1]| <= numTokens && (!hasArray ==> numTokens == 0)
      && totalNumTokens == |Concat(arrays[..|arrays| - 1])|
    }

    function All(): seq<Token>
      reads this
    {
      Concat(arrays)
    }

    function Free(): int
      requires arrays != []
      reads this
    {
      numTokens - |arrays[|arrays| - 1]|
    }

    constructor ()
      ensures Valid() && All() == []
    {
      arrays, hasArray, numTokens, totalNumTokens := [[]], false, 0, 0;
      new;
      assert arrays[..0] == [];
      assert Concat(arrays) == Concat(arrays[..0]) + arrays[0];
    }

    /** The number of tokens so far. */
    method Count() returns (n: nat)
      requires Valid()
      ensures n == |All()|
    {
      n := totalNumTokens + |arrays[|arrays| - 1]|;
    }

    /** Room for a row of MCUs, in a new array if the current one has too little. */
    method MakeRoom(mcuY: nat, mcuRows: nat, maxPerRow: nat)
      requires Valid() && mcuY < mcuRows
      modifies this
      ensures Valid() && All() == old(All()) && Free() >= maxPerRow && (maxPerRow > 0 ==> hasArray)
    {
      var last := |arrays| - 1;
      if |arrays[last]| + maxPerRow > numTokens {
        if hasArray {
          totalNumTokens := totalNumTokens + |arrays[last]|;
          arrays := arrays + [[]];
          assert arrays[..last + 1] == old(arrays);
        }
        numTokens := EstimateNumTokens(mcuY, mcuRows, totalNumTokens, maxPerRow);
        hasArray := true;
      }
    }

    method Append(tokens: seq<Token>)
      requires Valid() && hasArray && |tokens| <= Free()
      modifies this
      ensures Valid() && hasArray && All() == old(All()) + tokens && Free() == old(Free()) - |tokens|
    {
      var last := |arrays| - 1;
      arrays := arrays[last := arrays[last] + tokens];
      assert arrays[..last] == old(arrays[..last]);
      Associate(Concat(arrays[..last]), old(arrays[last]), tokens);
    }
  }

  // ---------------------------------------------------------------- what a scan is tokenized into

  /** The contexts of a block of an MCU. */
  datatype Contexts = Contexts(dc: nat, ac: nat)

  /** The residuals of the blocks of an MCU are of the type of coefficients. */
  predicate McuNarrow(kinds: seq<BlockKind>, lastDc: seq<int>, blocks: seq<Block>)
    requires forall i :: 0 <= i < |kinds| ==> kinds[i].component < |lastDc|
    decreases |kinds|
  {
    |blocks| == |kinds| &&
    (kinds != [] ==>
       && Narrow(Residual(blocks[0], lastDc[kinds[0].component]))
       && McuNarrow(kinds[1..], lastDc[kinds[0].component := blocks[0][0]], blocks[1..]))
  }

  function McuTokens(kinds: seq<BlockKind>, contexts: seq<Contexts>, lastDc: seq<int>, blocks: seq<Block>): seq<Token>
    requires |contexts| == |kinds| && (forall i :: 0 <= i < |kinds| ==> kinds[i].component < |lastDc|) && McuNarrow(kinds, lastDc, blocks)
    decreases |kinds|
  {
    if kinds == [] then [] else
      TokensOfBlock(Residual(blocks[0], lastDc[kinds[0].component]), contexts[0].dc, contexts[0].ac)
      + McuTokens(kinds[1..], contexts[1..], lastDc[kinds[0].component := blocks[0][0]], blocks[1..])
  }

  lemma {:induction false} McuTokensFew(kinds: seq<BlockKind>, contexts: seq<Contexts>, lastDc: seq<int>, blocks: seq<Block>)
    requires |contexts| == |kinds| && (forall i :: 0 <= i < |kinds| ==> kinds[i].component < |lastDc|) && McuNarrow(kinds, lastDc, blocks)
    ensures |kinds| <= |McuTokens(kinds, contexts, lastDc, blocks)| <= 64 * |kinds|
    decreases |kinds|
  {
    hide TokensOfBlock, Narrow;
    if kinds != [] {
      AtMost64Tokens(Residual(blocks[0], lastDc[kinds[0].component]), contexts[0].dc, contexts[0].ac);
      McuTokensFew(kinds[1..], contexts[1..], lastDc[kinds[0].component := blocks[0][0]], blocks[1..]);
    }
  }

  /** One MCU. */
  method TokenizeMcu(kinds: seq<BlockKind>, contexts: seq<Contexts>, lastDc0: seq<int>, blocks: seq<Block>, ta: TokenArrays)
      returns (lastDc: seq<int>)
    requires |contexts| == |kinds| && (forall i :: 0 <= i < |kinds| ==> kinds[i].component < |lastDc0|) && McuNarrow(kinds, lastDc0, blocks)
    requires ta.Valid() && ta.hasArray && ta.Free() >= 64 * |kinds|
    modifies ta
    ensures ta.Valid() && ta.hasArray && lastDc == DcAfter(kinds, lastDc0, blocks)
    ensures ta.All() == old(ta.All()) + McuTokens(kinds, contexts, lastDc0, blocks)
    ensures ta.Free() == old(ta.Free()) - |McuTokens(kinds, contexts, lastDc0, blocks)|
  {
    hide TokensOfBlock, Narrow, Concat;
    lastDc := lastDc0;
    assert kinds[0..] == kinds && contexts[0..] == contexts && blocks[0..] == blocks;
    ghost var tokens := McuTokens(kinds, contexts, lastDc0, blocks);
    for i := 0 to |kinds|
      invariant |lastDc| == |lastDc0| && McuNarrow(kinds[i..], lastDc, blocks[i..])
      invariant DcAfter(kinds[i..], lastDc, blocks[i..]) == DcAfter(kinds, lastDc0, blocks)
      invariant ta.Valid() && ta.hasArray
      invariant ta.All() + McuTokens(kinds[i..], contexts[i..], lastDc, blocks[i..]) == old(ta.All()) + tokens
      invariant ta.Free() - |McuTokens(kinds[i..], contexts[i..], lastDc, blocks[i..])| == old(ta.Free()) - |tokens|
    {
      assert kinds[i..][0] == kinds[i] && contexts[i..][0] == contexts[i] && blocks[i..][0] == blocks[i];
      assert kinds[i..][1..] == kinds[i + 1..] && contexts[i..][1..] == contexts[i + 1..] && blocks[i..][1..] == blocks[i + 1..];
      var c := kinds[i].component;
      McuTokensFew(kinds, contexts, lastDc0, blocks);
      var next := ComputeTokensForBlock(blocks[i], lastDc[c], contexts[i].dc, contexts[i].ac);
      Associate(ta.All(), next, McuTokens(kinds[i + 1..], contexts[i + 1..], lastDc[c := blocks[i][0]], blocks[i + 1..]));
      ta.Append(next);
      lastDc := lastDc[c := blocks[i][0]];
    }
  }

  // ---------------------------------------------------------------- restart intervals

  /** The MCUs between two restarts; they begin without a prediction. */
  predicate IntervalNarrow(scan: Scan, lastDc: seq<int>, mcus: seq<seq<Block>>)
    requires scan.Valid() && |lastDc| == scan.components
    decreases |mcus|
  {
    mcus != [] ==>
      && McuNarrow(scan.kinds, lastDc, mcus[0])
      && IntervalNarrow(scan, DcAfter(scan.kinds, lastDc, mcus[0]), mcus[1..])
  }

  function IntervalTokens(scan: Scan, contexts: seq<Contexts>, lastDc: seq<int>, mcus: seq<seq<Block>>): seq<Token>
    requires scan.Valid() && |lastDc| == scan.components && |contexts| == |scan.kinds| && IntervalNarrow(scan, lastDc, mcus)
    decreases |mcus|
  {
    if mcus == [] then [] else
      McuTokens(scan.kinds, contexts, lastDc, mcus[0])
      + IntervalTokens(scan, contexts, DcAfter(scan.kinds, lastDc, mcus[0]), mcus[1..])
  }

  function DcAfterAll(scan: Scan, lastDc: seq<int>, mcus: seq<seq<Block>>): (r: seq<int>)
    requires scan.Valid() && |lastDc| == scan.components && IntervalNarrow(scan, lastDc, mcus)
    ensures |r| == scan.components
    decreases |mcus|
  {
    if mcus == [] then lastDc else DcAfterAll(scan, DcAfter(scan.kinds, lastDc, mcus[0]), mcus[1..])
  }

  lemma NarrowLength(kinds: seq<BlockKind>, lastDc: seq<int>, blocks: seq<Block>)
    requires (forall i :: 0 <= i < |kinds| ==> kinds[i].component < |lastDc|) && McuNarrow(kinds, lastDc, blocks)
    ensures |blocks| == |kinds|
  {
  }

  lemma {:induction false} OneMoreMcu(scan: Scan, contexts: seq<Contexts>, lastDc: seq<int>, mcus: seq<seq<Block>>, n: nat)
    requires scan.Valid() && |lastDc| == scan.components && |contexts| == |scan.kinds| && IntervalNarrow(scan, lastDc, mcus) && n < |mcus|
    ensures IntervalNarrow(scan, lastDc, mcus[..n]) && IntervalNarrow(scan, lastDc, mcus[..n + 1])
    ensures var dc := DcAfterAll(scan, lastDc, mcus[..n]);
      && McuNarrow(scan.kinds, dc, mcus[n])
      && DcAfterAll(scan, lastDc, mcus[..n + 1]) == DcAfter(scan.kinds, dc, mcus[n])
      && IntervalTokens(scan, contexts, lastDc, mcus[..n + 1])
           == IntervalTokens(scan, contexts, lastDc, mcus[..n]) + McuTokens(scan.kinds, contexts, dc, mcus[n])
    decreases |mcus|
  {
    hide McuTokens, McuNarrow, DcAfter;
    NarrowLength(scan.kinds, lastDc, mcus[0]);
    if n == 0 {
      assert mcus[..0] == [] && mcus[..1] == [mcus[0]] && mcus[..1][1..] == [];
    } else {
      var next := DcAfter(scan.kinds, lastDc, mcus[0]);
      OneMoreMcu(scan, contexts, next, mcus[1..], n - 1);
      assert mcus[..n][1..] == mcus[1..][..n - 1] && mcus[..n + 1][1..] == mcus[1..][..n];
      Associate(McuTokens(scan.kinds, contexts, lastDc, mcus[0]), IntervalTokens(scan, contexts, next, mcus[1..][..n - 1]),
                McuTokens(scan.kinds, contexts, DcAfterAll(scan, next, mcus[1..][..n - 1]), mcus[n]));
    }
  }

  /** The MCUs of a scan, divided into full intervals and the rest. */
  function Divide(mcus: seq<seq<Block>>, interval: nat): (intervals: seq<seq<seq<Block>>>)
    ensures intervals != []
    decreases |mcus|
  {
    if interval == 0 || |mcus| <= interval then [mcus] else [mcus[..interval]] + Divide(mcus[interval..], interval)
  }

  /** Where interval j begins. */
  function IntervalStart(interval: nat, j: nat): nat {
    if j == 0 then 0 else IntervalStart(interval, j - 1) + interval
  }

  lemma {:induction false} DivideAt(mcus: seq<seq<Block>>, interval: nat, j: nat)
    requires j < |Divide(mcus, interval)|
    ensures var start, end := IntervalStart(interval, j), if j + 1 < |Divide(mcus, interval)| then IntervalStart(interval, j) + interval else |mcus|;
            start <= end <= |mcus| && Divide(mcus, interval)[j] == mcus[start..end]
    ensures interval > 0 && j + 1 == |Divide(mcus, interval)| ==> |mcus| <= IntervalStart(interval, j) + interval
    ensures mcus != [] ==> IntervalStart(interval, j) < |mcus|
    ensures interval == 0 ==> |Divide(mcus, interval)| == 1
    decreases |mcus|
  {
    hide IntervalStart;
    FirstStart(interval);
    if interval == 0 || |mcus| <= interval {
      assert mcus[0..|mcus|] == mcus;
    } else {
      var tail := mcus[interval..];
      assert Divide(mcus, interval) == [mcus[..interval]] + Divide(tail, interval);
      if j > 0 {
        DivideAt(tail, interval, j - 1);
        NextStart(interval, j - 1);
        var start, end := IntervalStart(interval, j - 1), if j < |Divide(tail, interval)| then IntervalStart(interval, j - 1) + interval else |tail|;
        assert tail[start..end] == mcus[interval + start..interval + end];
      }
    }
  }

  lemma FirstStart(interval: nat)
    ensures IntervalStart(interval, 0) == 0
  {
  }

  lemma NextStart(interval: nat, j: nat)
    ensures IntervalStart(interval, j + 1) == IntervalStart(interval, j) + interval
  {
  }

  ghost predicate Tokenizable(scan: Scan, contexts: seq<Contexts>, intervals: seq<seq<seq<Block>>>) {
    && scan.Valid() && |contexts| == |scan.kinds|
    && forall i :: 0 <= i < |intervals| ==> IntervalNarrow(scan, NoPrediction(scan), intervals[i])
  }

  ghost function TokensOfIntervals(scan: Scan, contexts: seq<Contexts>, intervals: seq<seq<seq<Block>>>): seq<Token>
    requires Tokenizable(scan, contexts, intervals)
  {
    if intervals == [] then [] else
      TokensOfIntervals(scan, contexts, intervals[..|intervals| - 1])
      + IntervalTokens(scan, contexts, NoPrediction(scan), intervals[|intervals| - 1])
  }

  /** The index of the first token after each interval. */
  ghost function EndsOf(scan: Scan, contexts: seq<Contexts>, offset: nat, intervals: seq<seq<seq<Block>>>): (ends: seq<nat>)
    requires Tokenizable(scan, contexts, intervals)
    ensures |ends| == |intervals|
  {
    if intervals == [] then [] else
      EndsOf(scan, contexts, offset, intervals[..|intervals| - 1]) + [offset + |TokensOfIntervals(scan, contexts, intervals)|]
  }

  /** The tokens of the next interval, and the place of the restart after it. */
  lemma NextInterval(scan: Scan, contexts: seq<Contexts>, offset: nat, intervals: seq<seq<seq<Block>>>, j: nat)
    requires Tokenizable(scan, contexts, intervals) && j < |intervals|
    ensures Tokenizable(scan, contexts, intervals[..j]) && Tokenizable(scan, contexts, intervals[..j + 1])
    ensures TokensOfIntervals(scan, contexts, intervals[..j + 1])
         == TokensOfIntervals(scan, contexts, intervals[..j]) + IntervalTokens(scan, contexts, NoPrediction(scan), intervals[j])
    ensures EndsOf(scan, contexts, offset, intervals[..j + 1])
         == EndsOf(scan, contexts, offset, intervals[..j]) + [offset + |TokensOfIntervals(scan, contexts, intervals[..j + 1])|]
  {
    hide IntervalTokens, IntervalNarrow;
    assert intervals[..j + 1][..j] == intervals[..j];
  }

  // ---------------------------------------------------------------- the scan

  /** After the MCUs before n: j restarts, and the tokens since the last one. */
  ghost predicate Tokenized(scan: Scan, contexts: seq<Contexts>, mcus: seq<seq<Block>>, before: seq<Token>,
                            n: nat, all: seq<Token>, restarts: seq<nat>, lastDc: seq<int>)
  {
    var intervals, j := Divide(mcus, scan.interval), |restarts|;
    && Tokenizable(scan, contexts, intervals) && j < |intervals| && n <= |mcus|
    && IntervalStart(scan.interval, j) <= n && (scan.interval > 0 ==> n <= IntervalStart(scan.interval, j) + scan.interval)
    && var current := mcus[IntervalStart(scan.interval, j)..n];
    && current <= intervals[j]
    && IntervalNarrow(scan, NoPrediction(scan), current) && lastDc == DcAfterAll(scan, NoPrediction(scan), current)
    && Tokenizable(scan, contexts, intervals[..j])
    && all == before + TokensOfIntervals(scan, contexts, intervals[..j]) + IntervalTokens(scan, contexts, NoPrediction(scan), current)
    && restarts == EndsOf(scan, contexts, |before|, intervals[..j])
  }

  lemma EmptyInterval(scan: Scan, contexts: seq<Contexts>)
    requires scan.Valid() && |contexts| == |scan.kinds|
    ensures IntervalNarrow(scan, NoPrediction(scan), []) && IntervalTokens(scan, contexts, NoPrediction(scan), []) == []
    ensures DcAfterAll(scan, NoPrediction(scan), []) == NoPrediction(scan)
  {
  }

  lemma NothingTokenized(scan: Scan, contexts: seq<Contexts>, mcus: seq<seq<Block>>, before: seq<Token>)
    requires Tokenizable(scan, contexts, Divide(mcus, scan.interval))
    ensures Tokenized(scan, contexts, mcus, before, 0, before, [], NoPrediction(scan))
  {
    hide Divide;
    assert Divide(mcus, scan.interval)[..0] == [];
    IntervalOpens(scan, contexts, mcus, before, 0, before, []);
  }

  /** One more MCU. */
  lemma McuTokenized(scan: Scan, contexts: seq<Contexts>, mcus: seq<seq<Block>>, before: seq<Token>,
                     n: nat, all: seq<Token>, restarts: seq<nat>, lastDc: seq<int>)
    requires Tokenized(scan, contexts, mcus, before, n, all, restarts, lastDc) && n < |mcus|
    requires scan.interval > 0 ==> n < IntervalStart(scan.interval, |restarts|) + scan.interval
    ensures |lastDc| == scan.components && McuNarrow(scan.kinds, lastDc, mcus[n])
    ensures Tokenized(scan, contexts, mcus, before, n + 1, all + McuTokens(scan.kinds, contexts, lastDc, mcus[n]), restarts,
                      DcAfter(scan.kinds, lastDc, mcus[n]))
  {
    hide Divide, McuTokens, McuNarrow, DcAfter, IntervalTokens, TokensOfIntervals, EndsOf, IntervalNarrow, DcAfterAll, IntervalStart;
    var intervals, j := Divide(mcus, scan.interval), |restarts|;
    var start := IntervalStart(scan.interval, j);
    DivideAt(mcus, scan.interval, j);
    var m := n - start;
    OneMoreMcu(scan, contexts, NoPrediction(scan), intervals[j], m);
    assert intervals[j][..m] == mcus[start..n] && intervals[j][..m + 1] == mcus[start..n + 1] && intervals[j][m] == mcus[n];
    Associate(before + TokensOfIntervals(scan, contexts, intervals[..j]), IntervalTokens(scan, contexts, NoPrediction(scan), mcus[start..n]),
              McuTokens(scan.kinds, contexts, lastDc, mcus[n]));
  }

  /** A complete interval: the number of tokens so far is the place of what follows. */
  lemma IntervalCloses(scan: Scan, contexts: seq<Contexts>, mcus: seq<seq<Block>>, before: seq<Token>,
                       n: nat, all: seq<Token>, restarts: seq<nat>, lastDc: seq<int>)
    requires Tokenized(scan, contexts, mcus, before, n, all, restarts, lastDc)
    requires mcus[IntervalStart(scan.interval, |restarts|)..n] == Divide(mcus, scan.interval)[|restarts|]
    ensures var some := Divide(mcus, scan.interval)[..|restarts| + 1];
      && Tokenizable(scan, contexts, some)
      && all == before + TokensOfIntervals(scan, contexts, some) && restarts + [|all|] == EndsOf(scan, contexts, |before|, some)
  {
    hide Divide, IntervalNarrow, IntervalTokens, DcAfterAll, TokensOfIntervals, EndsOf, NoPrediction, IntervalStart;
    var intervals, j := Divide(mcus, scan.interval), |restarts|;
    NextInterval(scan, contexts, |before|, intervals, j);
    Associate(before, TokensOfIntervals(scan, contexts, intervals[..j]), IntervalTokens(scan, contexts, NoPrediction(scan), intervals[j]));
  }

  /** A restart. */
  lemma RestartTokenized(scan: Scan, contexts: seq<Contexts>, mcus: seq<seq<Block>>, before: seq<Token>,
                         n: nat, all: seq<Token>, restarts: seq<nat>, lastDc: seq<int>)
    requires Tokenized(scan, contexts, mcus, before, n, all, restarts, lastDc) && n < |mcus|
    requires scan.interval > 0 && n == IntervalStart(scan.interval, |restarts|) + scan.interval
    ensures Tokenized(scan, contexts, mcus, before, n, all, restarts + [|all|], NoPrediction(scan))
    ensures n == IntervalStart(scan.interval, |restarts| + 1)
  {
    hide Divide, IntervalNarrow, IntervalTokens, DcAfterAll, TokensOfIntervals, EndsOf, NoPrediction, IntervalStart;
    var j := |restarts|;
    NextStart(scan.interval, j);
    DivideAt(mcus, scan.interval, j);
    DivideAt(mcus, scan.interval, j + 1);
    IntervalCloses(scan, contexts, mcus, before, n, all, restarts, lastDc);
    IntervalOpens(scan, contexts, mcus, before, n, all, restarts + [|all|]);
  }

  lemma IntervalOpens(scan: Scan, contexts: seq<Contexts>, mcus: seq<seq<Block>>, before: seq<Token>, n: nat, all: seq<Token>, restarts: seq<nat>)
    requires Tokenizable(scan, contexts, Divide(mcus, scan.interval)) && |restarts| < |Divide(mcus, scan.interval)|
    requires n == IntervalStart(scan.interval, |restarts|) <= |mcus|
    requires var some := Divide(mcus, scan.interval)[..|restarts|];
             Tokenizable(scan, contexts, some) && all == before + TokensOfIntervals(scan, contexts, some) && restarts == EndsOf(scan, contexts, |before|, some)
    ensures Tokenized(scan, contexts, mcus, before, n, all, restarts, NoPrediction(scan))
  {
    hide Divide, IntervalNarrow, IntervalTokens, DcAfterAll, TokensOfIntervals, EndsOf, NoPrediction, IntervalStart;
    EmptyInterval(scan, contexts);
    assert mcus[n..n] == [] && all + [] == all;
  }

  /** All MCUs: the end of the tokens closes the list of restarts. */
  lemma AllTokenized(scan: Scan, contexts: seq<Contexts>, mcus: seq<seq<Block>>, before: seq<Token>,
                     all: seq<Token>, restarts: seq<nat>, lastDc: seq<int>)
    requires Tokenized(scan, contexts, mcus, before, |mcus|, all, restarts, lastDc) && mcus != []
    ensures var intervals := Divide(mcus, scan.interval);
      && all == before + TokensOfIntervals(scan, contexts, intervals)
      && restarts + [|all|] == EndsOf(scan, contexts, |before|, intervals)
  {
    hide Divide, IntervalNarrow, IntervalTokens, DcAfterAll, TokensOfIntervals, EndsOf, NoPrediction, IntervalStart;
    var intervals, j := Divide(mcus, scan.interval), |restarts|;
    NextStart(scan.interval, j);
    DivideAt(mcus, scan.interval, j);
    if j + 1 < |intervals| {
      DivideAt(mcus, scan.interval, j + 1);
    }
    IntervalCloses(scan, contexts, mcus, before, |mcus|, all, restarts, lastDc);
    assert intervals[..j + 1] == intervals;
  }

  /** Before an MCU, the check for a restart: its place is the number of tokens so far, and predictions begin anew. */
  method TokenizeNextMcu(scan: Scan, contexts: seq<Contexts>, mcus: seq<seq<Block>>, n: nat, restarts0: seq<nat>, toGo0: nat, lastDc0: seq<int>,
                         ta: TokenArrays, ghost before: seq<Token>)
      returns (restarts: seq<nat>, restartsToGo: nat, lastDc: seq<int>)
    requires ta.Valid() && ta.hasArray && ta.Free() >= 64 * |scan.kinds| && n < |mcus|
    requires Tokenized(scan, contexts, mcus, before, n, ta.All(), restarts0, lastDc0)
    requires scan.interval > 0 ==> n + toGo0 == IntervalStart(scan.interval, |restarts0|) + scan.interval
    modifies ta
    ensures ta.Valid() && ta.hasArray && ta.Free() >= old(ta.Free()) - 64 * |scan.kinds|
    ensures Tokenized(scan, contexts, mcus, before, n + 1, ta.All(), restarts, lastDc)
    ensures scan.interval > 0 ==> n + 1 + restartsToGo == IntervalStart(scan.interval, |restarts|) + scan.interval
  {
    hide Tokenized, McuNarrow, McuTokens, IntervalStart, DcAfter, Concat;
    restarts, restartsToGo, lastDc := restarts0, toGo0, lastDc0;
    if scan.interval > 0 && restartsToGo == 0 {
      RestartTokenized(scan, contexts, mcus, before, n, ta.All(), restarts, lastDc);
      restartsToGo := scan.interval;
      lastDc := NoPrediction(scan);
      var count := ta.Count();
      restarts := restarts + [count];
    }
    McuTokenized(scan, contexts, mcus, before, n, ta.All(), restarts, lastDc);
    TokenizedParts(scan, contexts, mcus, before, n, ta.All(), restarts, lastDc);
    McuTokensFew(scan.kinds, contexts, lastDc, mcus[n]);
    lastDc := TokenizeMcu(scan.kinds, contexts, lastDc, mcus[n], ta);
    restartsToGo := if scan.interval > 0 then restartsToGo - 1 else 0;
  }

  /** The scan has mcuRows rows of mcusPerRow MCUs. */
  method TokenizeScan(scan: Scan, contexts: seq<Contexts>, mcus: seq<seq<Block>>, mcuRows: nat, mcusPerRow: nat, maxTokensPerRow: nat, ta: TokenArrays)
      returns (sti: ScanTokenInfo)
    requires Tokenizable(scan, contexts, Divide(mcus, scan.interval))
    requires |mcus| == mcuRows * mcusPerRow && mcus != [] && scan.kinds != [] && 64 * |scan.kinds| * mcusPerRow <= maxTokensPerRow && ta.Valid()
    modifies ta
    ensures ta.Valid()
    ensures var intervals := Divide(mcus, scan.interval);
      && ta.All() == old(ta.All()) + TokensOfIntervals(scan, contexts, intervals)
      && sti == ScanTokenInfo(|old(ta.All())|, |TokensOfIntervals(scan, contexts, intervals)|,
                              EndsOf(scan, contexts, |old(ta.All())|, intervals))
  {
    hide Tokenized, Divide, McuNarrow, McuTokens, Tokenizable, TokensOfIntervals, EndsOf, IntervalStart, DcAfter, Concat;
    ghost var before := ta.All();
    var offset := ta.Count();
    var restarts, restartsToGo, lastDc := [], scan.interval, NoPrediction(scan);
    NothingTokenized(scan, contexts, mcus, before);
    FirstStart(scan.interval);
    var n := 0;
    for mcuY := 0 to mcuRows
      invariant ta.Valid() && n == mcuY * mcusPerRow
      invariant Tokenized(scan, contexts, mcus, before, n, ta.All(), restarts, lastDc)
      invariant scan.interval > 0 ==> n + restartsToGo == IntervalStart(scan.interval, |restarts|) + scan.interval
    {
      ta.MakeRoom(mcuY, mcuRows, maxTokensPerRow);
      for mcuX := 0 to mcusPerRow
        invariant ta.Valid() && n == mcuY * mcusPerRow + mcuX
        invariant Tokenized(scan, contexts, mcus, before, n, ta.All(), restarts, lastDc)
        invariant scan.interval > 0 ==> n + restartsToGo == IntervalStart(scan.interval, |restarts|) + scan.interval
        invariant mcusPerRow > 0 ==> ta.hasArray
        invariant ta.Free() >= 64 * |scan.kinds| * (mcusPerRow - mcuX)
      {
        InRow(mcuY, mcuRows, mcuX, mcusPerRow);
        RoomForMcu(|scan.kinds|, mcusPerRow, mcuX);
        restarts, restartsToGo, lastDc := TokenizeNextMcu(scan, contexts, mcus, n, restarts, restartsToGo, lastDc, ta, before);
        n := n + 1;
      }
    }
    AllTokenized(scan, contexts, mcus, before, ta.All(), restarts, lastDc);
    var end := ta.Count();
    sti := ScanTokenInfo(offset, end - offset, restarts + [end]);
  }

  lemma InRow(y: nat, rows: nat, x: nat, perRow: nat)
    requires y < rows && x < perRow
    ensures y * perRow + x < rows * perRow && (y + 1) * perRow == y * perRow + perRow
  {
    assert rows * perRow == (y + 1) * perRow + (rows - y - 1) * perRow;
  }

  lemma RoomForMcu(kinds: nat, perRow: nat, x: nat)
    requires x < perRow
    ensures 64 * kinds * (perRow - x) == 64 * kinds + 64 * kinds * (perRow - (x + 1)) && 64 * kinds * (perRow - (x + 1)) >= 0
  {
    OneLess(64 * kinds, perRow - x);
  }

  lemma OneLess(a: nat, n: nat)
    requires n > 0
    ensures a * n == a + a * (n - 1) && a * (n - 1) >= 0
  {
  }

  lemma TokenizedParts(scan: Scan, contexts: seq<Contexts>, mcus: seq<seq<Block>>, before: seq<Token>,
                       n: nat, all: seq<Token>, restarts: seq<nat>, lastDc: seq<int>)
    requires Tokenized(scan, contexts, mcus, before, n, all, restarts, lastDc)
    ensures scan.Valid() && |contexts| == |scan.kinds| && |lastDc| == scan.components
    ensures forall i :: 0 <= i < |scan.kinds| ==> scan.kinds[i].component < |lastDc|
  {
  }
}
