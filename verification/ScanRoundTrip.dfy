/**
 The round trip of a sequential scan: MCUs written with DC prediction and restart markers are read back, over
 the byte stream and in any pieces.
 */
module ScanRoundTrip {
  import opened Arithmetic
  import opened BitStrings
  import opened HuffmanCode
  import opened EntropyBytes
  import opened EntropyStream
  import opened BlockSymbols
  import opened BlockDecoding
  import opened BlockRoundTrip
  import opened PredictedBlocks
  import opened BlockReader
  import opened SuspendedReading
  import opened McuStability
  import opened ScanSteps
  import opened ChunkedScan
  import ScanWriter

  type CodeTable = ScanWriter.CodeTable

  /** The code tables of a block of an MCU. */
  datatype Codes = Codes(dc: CodeTable, ac: CodeTable)

  ghost predicate Coding(kinds: seq<BlockKind>, codes: seq<Codes>, components: nat) {
    && |kinds| == |codes|
    && forall i :: 0 <= i < |kinds| ==>
         TableOf(kinds[i].dc, codes[i].dc) && TableOf(kinds[i].ac, codes[i].ac) && kinds[i].component < components
  }

  /** A block can be written, and is within the limits of the decoder. */
  ghost predicate BlockCodable(kind: BlockKind, codes: Codes, last: int, b: Block)
    requires TableOf(kind.dc, codes.dc) && TableOf(kind.ac, codes.ac)
  {
    Codable(Residual(b, last), kind.dc, kind.ac) && Decodable(Residual(b, last)) && FitsInt16(b[0])
  }

  lemma CodingParts(kinds: seq<BlockKind>, codes: seq<Codes>, components: nat)
    requires Coding(kinds, codes, components) && kinds != []
    ensures TableOf(kinds[0].dc, codes[0].dc) && TableOf(kinds[0].ac, codes[0].ac) && kinds[0].component < components
    ensures Coding(kinds[1..], codes[1..], components)
  {
    hide TableOf;
  }

  /** The blocks of an MCU can be written, and are within the limits of the decoder. */
  ghost predicate McuCodable(kinds: seq<BlockKind>, codes: seq<Codes>, lastDc: seq<int>, blocks: seq<Block>)
    requires Coding(kinds, codes, |lastDc|)
    decreases |kinds|
  {
    if |blocks| != |kinds| then false
    else if kinds == [] then true
    else
      CodingParts(kinds, codes, |lastDc|);
      BlockCodable(kinds[0], codes[0], lastDc[kinds[0].component], blocks[0])
      && McuCodable(kinds[1..], codes[1..], lastDc[kinds[0].component := blocks[0][0]], blocks[1..])
  }

  /** The bits of an MCU. */
  function McuBits(kinds: seq<BlockKind>, codes: seq<Codes>, lastDc: seq<int>, blocks: seq<Block>): Bits
    requires Coding(kinds, codes, |lastDc|) && |blocks| == |kinds|
    decreases |kinds|
  {
    if kinds == [] then [] else
      BitsOfBlock(Residual(blocks[0], lastDc[kinds[0].component]), kinds[0].dc, kinds[0].ac, codes[0].dc, codes[0].ac)
      + McuBits(kinds[1..], codes[1..], lastDc[kinds[0].component := blocks[0][0]], blocks[1..])
  }

  /** The code of a block is not longer than what a decoder can read for one. */
  lemma BlockCodeIsShort(b: Block, kind: BlockKind, dc: CodeTable, ac: CodeTable)
    requires TableOf(kind.dc, dc) && TableOf(kind.ac, ac) && Codable(b, kind.dc, kind.ac) && Decodable(b)
    ensures |BitsOfBlock(b, kind.dc, kind.ac, dc, ac)| <= MANY
  {
    hide *;
    var bits := BitsOfBlock(b, kind.dc, kind.ac, dc, ac);
    TablesAreValid(kind.dc, dc);
    TablesAreValid(kind.ac, ac);
    assert bits + [] == bits;
    BlockRoundTripsIff(b, kind.dc, kind.ac, dc, ac, []);
    PredictedIs(kind, -b[0], bits);
    ZeroFits();
    BlockRest(kind, -b[0], bits);
    BlockLeftBound(kind, -b[0], bits);
  }

  lemma ZeroFits()
    ensures FitsInt16(0)
  {
  }

  /** An MCU that was written at bit c is decoded from there. */
  lemma {:induction false} WrittenMcuIsRead(kinds: seq<BlockKind>, codes: seq<Codes>, lastDc: seq<int>, blocks: seq<Block>,
                                            data: seq<Byte>, start: nat, c: nat, end: nat)
    requires Coding(kinds, codes, |lastDc|) && Supported(kinds, |lastDc|) && McuCodable(kinds, codes, lastDc, blocks)
    requires var bits := McuBits(kinds, codes, lastDc, blocks); c + |bits| <= end && Stream(data, start, c, |bits|) == bits
    ensures DecodeMcu(kinds, lastDc, Ahead(data, start, c, end))
         == Got(Mcu(blocks, DcAfter(kinds, lastDc, blocks)), Ahead(data, start, c + |McuBits(kinds, codes, lastDc, blocks)|, end))
    decreases |kinds|
  {
    hide Ahead, PredictedBlock, BitsOfBlock, TableOf, Codable, Decodable, Valid, Stream;
    if kinds != [] {
      var kind, last := kinds[0], lastDc[kinds[0].component];
      var next := lastDc[kind.component := blocks[0][0]];
      var first := BitsOfBlock(Residual(blocks[0], last), kind.dc, kind.ac, codes[0].dc, codes[0].ac);
      var tail := McuBits(kinds[1..], codes[1..], next, blocks[1..]);
      TwoParts(data, start, c, first, tail);
      WrittenBlockIsRead(Residual(blocks[0], last), kind, codes[0].dc, codes[0].ac, data, start, c, end, last);
      WithPrediction(blocks[0], last);
      WrittenMcuIsRead(kinds[1..], codes[1..], next, blocks[1..], data, start, c + |first|, end);
      assert blocks == [blocks[0]] + blocks[1..];
    }
  }

  lemma TwoParts(data: seq<Byte>, start: nat, c: nat, first: Bits, tail: Bits)
    requires Stream(data, start, c, |first + tail|) == first + tail
    ensures Stream(data, start, c, |first|) == first && Stream(data, start, c + |first|, |tail|) == tail
  {
    StreamConcat(data, start, c, |first|, |tail|);
    hide Stream;
    assert Stream(data, start, c, |first| + |tail|)[..|first|] == first;
  }

  lemma WithPrediction(b: Block, last: int)
    ensures Residual(b, last)[0] + last == b[0] && WithDc(Residual(b, last), b[0]) == b
  {
  }

  lemma {:induction false} McuCodeIsShort(kinds: seq<BlockKind>, codes: seq<Codes>, lastDc: seq<int>, blocks: seq<Block>)
    requires Coding(kinds, codes, |lastDc|) && McuCodable(kinds, codes, lastDc, blocks)
    ensures |McuBits(kinds, codes, lastDc, blocks)| <= MANY * |kinds|
    decreases |kinds|
  {
    hide BitsOfBlock, TableOf, Codable, Decodable;
    if kinds != [] {
      BlockCodeIsShort(Residual(blocks[0], lastDc[kinds[0].component]), kinds[0], codes[0].dc, codes[0].ac);
      McuCodeIsShort(kinds[1..], codes[1..], lastDc[kinds[0].component := blocks[0][0]], blocks[1..]);
    }
  }

  // ---------------------------------------------------------------- one restart interval

  /** The MCUs of an interval can be written. */
  ghost predicate IntervalCodable(scan: Scan, codes: seq<Codes>, lastDc: seq<int>, mcus: seq<seq<Block>>)
    requires Coding(scan.kinds, codes, |lastDc|)
    decreases |mcus|
  {
    mcus != [] ==>
      && McuCodable(scan.kinds, codes, lastDc, mcus[0])
      && IntervalCodable(scan, codes, DcAfter(scan.kinds, lastDc, mcus[0]), mcus[1..])
  }

  /** The bits of an interval. */
  ghost function IntervalBits(scan: Scan, codes: seq<Codes>, lastDc: seq<int>, mcus: seq<seq<Block>>): Bits
    requires Coding(scan.kinds, codes, |lastDc|) && IntervalCodable(scan, codes, lastDc, mcus)
    decreases |mcus|
  {
    if mcus == [] then [] else
      McuBits(scan.kinds, codes, lastDc, mcus[0]) + IntervalBits(scan, codes, DcAfter(scan.kinds, lastDc, mcus[0]), mcus[1..])
  }

  /** The position behind bit c of the segment that begins at start. */
  function InSegment(data: seq<Byte>, start: nat, c: nat, lastDc: seq<int>, toGo: nat, marker: nat): Position {
    Position(PosAt(data, start, c / 8), c % 8, lastDc, toGo, marker)
  }

  /** A segment that is followed by a marker. */
  ghost predicate Segmented(data: seq<Byte>, start: nat) {
    start <= |data| && EndOf(data, start) + 2 <= |data|
  }

  lemma InSegmentIsAt(scan: Scan, data: seq<Byte>, start: nat, c: nat, lastDc: seq<int>, toGo: nat, marker: nat)
    requires scan.Valid() && |lastDc| == scan.components && marker < 8 && Segmented(data, start) && c <= 8 * |Bytes(data, start)|
    ensures At(scan, data, InSegment(data, start, c, lastDc, toGo, marker))
  {
    hide Bytes, PosAt;
    PosBelowEnd(data, start, c / 8);
    if c % 8 > 0 {
      Inside(data, start, c / 8);
    }
  }

  /** A written MCU is one step. */
  lemma McuIsStep(scan: Scan, codes: seq<Codes>, data: seq<Byte>, start: nat, c: nat, lastDc: seq<int>, toGo: nat, marker: nat, blocks: seq<Block>)
    requires scan.Valid() && Coding(scan.kinds, codes, |lastDc|) && |lastDc| == scan.components && McuCodable(scan.kinds, codes, lastDc, blocks)
    requires marker < 8 && Segmented(data, start) && (scan.interval > 0 ==> toGo > 0)
    requires var bits := McuBits(scan.kinds, codes, lastDc, blocks);
             c + |bits| <= 8 * |Bytes(data, start)| && Stream(data, start, c, |bits|) == bits
    ensures var p, c2 := InSegment(data, start, c, lastDc, toGo, marker), c + |McuBits(scan.kinds, codes, lastDc, blocks)|;
            && At(scan, data, p)
            && StepAt(scan, data, p) == Decoded(blocks, InSegment(data, start, c2, DcAfter(scan.kinds, lastDc, blocks), if toGo > 0 then toGo - 1 else 0, marker))
  {
    hide Ahead, DecodeMcu, McuBits, DcAfter, Codable, Decodable, BitsOfBlock, Stream, Bytes, PosAt, TableOf, Supported, Segmented, McuStep, At;
    var bits := McuBits(scan.kinds, codes, lastDc, blocks);
    var k, b, n := c / 8, c % 8, |bits|;
    InSegmentIsAt(scan, data, start, c, lastDc, toGo, marker);
    var p := InSegment(data, start, c, lastDc, toGo, marker);
    StartsInside(data, start, k, b, n);
    assert Stream(data, p.pos, b, n) == bits;
    McuCodeIsShort(scan.kinds, codes, lastDc, blocks);
    EnoughForMcu(scan, p);
    CodedSupported(scan, lastDc);
    WrittenMcuIsRead(scan.kinds, codes, lastDc, blocks, data, p.pos, b, EndOfMcu(scan, p));
    McuStepIs(scan, data, p, Mcu(blocks, DcAfter(scan.kinds, lastDc, blocks)), b + n);
  }

  lemma CodedSupported(scan: Scan, lastDc: seq<int>)
    requires scan.Valid() && |lastDc| == scan.components
    ensures Supported(scan.kinds, |lastDc|)
  {
  }

  /** Positions and bits, counted from byte k of a segment. */
  lemma StartsInside(data: seq<Byte>, start: nat, k: nat, b: nat, n: nat)
    requires Segmented(data, start) && 8 * k + b + n <= 8 * |Bytes(data, start)|
    ensures var pos := PosAt(data, start, k);
            && Stream(data, pos, b, n) == Stream(data, start, 8 * k + b, n)
            && PosAt(data, pos, (b + n) / 8) == PosAt(data, start, (8 * k + b + n) / 8) && (8 * k + b + n) % 8 == (b + n) % 8
            && b + n <= 8 * |Bytes(data, pos)|
            && PosAt(data, start, (8 * k + b + n) / 8) + 2 <= |data|
  {
    hide Stream, Bytes, PosAt;
    ResumedStream(data, start, k, b, n);
    Resumed(data, start, k, 0);
    assert (8 * k + b + n) / 8 == k + (b + n) / 8;
    PosSum(data, start, k, (b + n) / 8);
    PosBelowEnd(data, start, k + (b + n) / 8);
  }

  lemma FirstOfInterval(scan: Scan, codes: seq<Codes>, lastDc: seq<int>, mcus: seq<seq<Block>>)
    requires Coding(scan.kinds, codes, |lastDc|) && IntervalCodable(scan, codes, lastDc, mcus) && mcus != []
    ensures |mcus[0]| == |scan.kinds| && McuCodable(scan.kinds, codes, lastDc, mcus[0])
    ensures IntervalCodable(scan, codes, DcAfter(scan.kinds, lastDc, mcus[0]), mcus[1..])
  {
    hide Coding;
  }

  /** The MCUs of an interval are delivered one after the other. */
  lemma {:induction false} IntervalIsRun(scan: Scan, codes: seq<Codes>, data: seq<Byte>, start: nat, c: nat, lastDc: seq<int>, toGo: nat, marker: nat,
                                         mcus: seq<seq<Block>>, n: nat) returns (q: Position)
    requires scan.Valid() && Coding(scan.kinds, codes, |lastDc|) && |lastDc| == scan.components && IntervalCodable(scan, codes, lastDc, mcus)
    requires marker < 8 && Segmented(data, start) && (if scan.interval > 0 then toGo >= |mcus| else toGo == 0) && |mcus| <= n
    requires var bits := IntervalBits(scan, codes, lastDc, mcus);
             c + |bits| <= 8 * |Bytes(data, start)| && Stream(data, start, c, |bits|) == bits
    ensures q == InSegment(data, start, c + |IntervalBits(scan, codes, lastDc, mcus)|, q.lastDc, if toGo > 0 then toGo - |mcus| else 0, marker)
    ensures |q.lastDc| == scan.components
    ensures At(scan, data, InSegment(data, start, c, lastDc, toGo, marker)) && At(scan, data, q)
    ensures McuRun(scan, data, InSegment(data, start, c, lastDc, toGo, marker), n).0 == mcus + McuRun(scan, data, q, n - |mcus|).0
    decreases |mcus|
  {
    hide McuBits, McuCodable, DcAfter, TableOf, Stream, Bytes, Segmented, StepAt, At, PosAt;
    var p := InSegment(data, start, c, lastDc, toGo, marker);
    InSegmentIsAt(scan, data, start, c, lastDc, toGo, marker);
    if mcus == [] {
      q := p;
      assert [] + McuRun(scan, data, q, n).0 == McuRun(scan, data, q, n).0;
    } else {
      FirstOfInterval(scan, codes, lastDc, mcus);
      var next := DcAfter(scan.kinds, lastDc, mcus[0]);
      var first, tail := McuBits(scan.kinds, codes, lastDc, mcus[0]), IntervalBits(scan, codes, next, mcus[1..]);
      TwoParts(data, start, c, first, tail);
      McuIsStep(scan, codes, data, start, c, lastDc, toGo, marker, mcus[0]);
      var toGo2 := if toGo > 0 then toGo - 1 else 0;
      q := IntervalIsRun(scan, codes, data, start, c + |first|, next, toGo2, marker, mcus[1..], n - 1);
      var p2 := InSegment(data, start, c + |first|, next, toGo2, marker);
      assert McuRun(scan, data, p, n).0 == [mcus[0]] + McuRun(scan, data, p2, n - 1).0;
      assert [mcus[0]] + (mcus[1..] + McuRun(scan, data, q, n - |mcus|).0) == mcus + McuRun(scan, data, q, n - |mcus|).0;
    }
  }

  /** At the end of an interval the expected marker is passed. */
  lemma RestartIsStep(scan: Scan, data: seq<Byte>, start: nat, c: nat, lastDc: seq<int>, marker: nat)
    requires scan.Valid() && |lastDc| == scan.components && scan.interval > 0 && marker < 8 && Segmented(data, start)
    requires 8 * |Bytes(data, start)| == c + Padding(c)
    requires var e := EndOf(data, start); data[e] == 0xFF && data[e + 1] == 0xD0 + marker
    ensures var p := InSegment(data, start, c, lastDc, 0, marker);
            && At(scan, data, p)
            && StepAt(scan, data, p) == Restarted(Position(EndOf(data, start) + 2, 0, NoPrediction(scan), scan.interval, (marker + 1) % 8))
  {
    hide Bytes, PosAt;
    InSegmentIsAt(scan, data, start, c, lastDc, 0, marker);
    var p := InSegment(data, start, c, lastDc, 0, marker);
    if c % 8 > 0 {
      Inside(data, start, c / 8);
      assert c / 8 + 1 == |Bytes(data, start)|;
    }
    assert SkipPartial(data, p) == EndOf(data, start);
  }

  // ---------------------------------------------------------------- whole scans

  /** The intervals of a scan: one if there are no restarts; otherwise all but the last are full. */
  ghost predicate Divided(scan: Scan, codes: seq<Codes>, intervals: seq<seq<seq<Block>>>) {
    && scan.Valid() && Coding(scan.kinds, codes, scan.components) && intervals != []
    && (forall i :: 0 <= i < |intervals| ==> IntervalCodable(scan, codes, NoPrediction(scan), intervals[i]))
    && (if scan.interval == 0 then |intervals| == 1
        else (forall i :: 0 <= i < |intervals| - 1 ==> |intervals[i]| == scan.interval) && |intervals[|intervals| - 1]| <= scan.interval)
  }

  ghost function SegmentsOf(scan: Scan, codes: seq<Codes>, intervals: seq<seq<seq<Block>>>): (segs: seq<Bits>)
    requires Divided(scan, codes, intervals)
    ensures |segs| == |intervals|
  {
    seq(|intervals|, i requires 0 <= i < |intervals| => IntervalBits(scan, codes, NoPrediction(scan), intervals[i]))
  }

  /** All MCUs from interval k on. */
  function McusFrom(intervals: seq<seq<seq<Block>>>, k: nat): seq<seq<Block>>
    requires k <= |intervals|
    decreases |intervals| - k
  {
    if k == |intervals| then [] else intervals[k] + McusFrom(intervals, k + 1)
  }

  function StartOf(scan: Scan, pos: nat, k: nat): Position {
    Position(pos, 0, NoPrediction(scan), scan.interval, k % 8)
  }

  /** What follows segment k: the next marker and segment, or the marker that ends the scan. */
  function Follows(segs: seq<Bits>, k: nat, after: seq<Byte>): seq<Byte>
    requires k < |segs|
  {
    if k == |segs| - 1 then after else RestartMarker(k) + ScanTail(segs, k + 1) + after
  }

  ghost predicate EndsScan(after: seq<Byte>) {
    |after| >= 2 && after[0] == 0xFF && after[1] != 0
  }

  lemma TailParts(before: seq<Byte>, segs: seq<Bits>, k: nat, after: seq<Byte>)
    requires k < |segs| && EndsScan(after)
    ensures before + ScanTail(segs, k) + after == before + SegmentBytes(segs[k]) + Follows(segs, k, after)
    ensures EndsScan(Follows(segs, k, after))
    ensures k + 1 < |segs| ==> before + ScanTail(segs, k) + after
                               == before + SegmentBytes(segs[k]) + RestartMarker(k) + ScanTail(segs, k + 1) + after
    ensures k + 1 < |segs| ==> Follows(segs, k, after)[1] == 0xD0 + k % 8
  {
    UnfoldTail(segs, k);
    hide SegmentBytes, ScanTail;
    if k + 1 < |segs| {
      Regroup(before, SegmentBytes(segs[k]), RestartMarker(k), ScanTail(segs, k + 1), after);
    }
  }

  lemma Regroup(a: seq<Byte>, b: seq<Byte>, c: seq<Byte>, d: seq<Byte>, e: seq<Byte>)
    ensures a + (b + c + d) + e == a + b + (c + d + e) == a + b + c + d + e
  {
  }

  lemma UnfoldTail(segs: seq<Bits>, k: nat)
    requires k < |segs|
    ensures ScanTail(segs, k) == if k == |segs| - 1 then SegmentBytes(segs[k]) else SegmentBytes(segs[k]) + RestartMarker(k) + ScanTail(segs, k + 1)
  {
  }

  /** The place of segment k and of what follows it. */
  lemma SegmentPlace(before: seq<Byte>, segs: seq<Bits>, k: nat, after: seq<Byte>)
    requires k < |segs| && EndsScan(after)
    ensures var data, start, s := before + ScanTail(segs, k) + after, |before|, segs[k];
            && Segmented(data, start) && Stream(data, start, 0, |s|) == s && 8 * |Bytes(data, start)| == |s| + Padding(|s|)
            && EndOf(data, start) == |before| + |SegmentBytes(s)|
            && (k + 1 < |segs| ==> data[EndOf(data, start)] == 0xFF && data[EndOf(data, start) + 1] == 0xD0 + k % 8)
  {
    TailParts(before, segs, k, after);
    StreamOfSegment(before, segs[k], Follows(segs, k, after));
    hide ScanTail, SegmentBytes, Stream, Bytes, EndOf, Follows;
  }

  lemma StartIsInSegment(scan: Scan, data: seq<Byte>, pos: nat, k: nat)
    ensures StartOf(scan, pos, k) == InSegment(data, pos, 0, NoPrediction(scan), scan.interval, k % 8)
  {
  }

  lemma AfterRestart(scan: Scan, data: seq<Byte>, q: Position, next: Position, n: nat)
    requires At(scan, data, q) && At(scan, data, next) && StepAt(scan, data, q) == Restarted(next)
    ensures McuRun(scan, data, q, n).0 == McuRun(scan, data, next, n).0
  {
    hide StepAt;
  }

  /** The MCUs of interval k are delivered; then comes the next restart, if there is one. */
  lemma IntervalIsRead(scan: Scan, codes: seq<Codes>, intervals: seq<seq<seq<Block>>>, k: nat, before: seq<Byte>, after: seq<Byte>, n: nat)
      returns (q: Position)
    requires Divided(scan, codes, intervals) && k < |intervals| && EndsScan(after) && |intervals[k]| <= n
    ensures var segs := SegmentsOf(scan, codes, intervals);
            var data := before + ScanTail(segs, k) + after;
            && At(scan, data, StartOf(scan, |before|, k)) && At(scan, data, q)
            && McuRun(scan, data, StartOf(scan, |before|, k), n).0 == intervals[k] + McuRun(scan, data, q, n - |intervals[k]|).0
            && (k + 1 < |intervals| ==>
                  StepAt(scan, data, q) == Restarted(StartOf(scan, |before| + |SegmentBytes(segs[k])| + 2, k + 1)))
  {
    hide ScanTail, Stream, Bytes, EndOf, StepAt, SegmentBytes, IntervalBits, IntervalCodable, McuRun, At, PosAt, Segmented;
    var segs := SegmentsOf(scan, codes, intervals);
    var data, start := before + ScanTail(segs, k) + after, |before|;
    SegmentPlace(before, segs, k, after);
    StartIsInSegment(scan, data, start, k);
    q := IntervalIsRun(scan, codes, data, start, 0, NoPrediction(scan), scan.interval, k % 8, intervals[k], n);
    if k + 1 < |intervals| {
      RestartIsStep(scan, data, start, |segs[k]|, q.lastDc, k % 8);
    }
  }

  /** From any restart on, the written scan is delivered. */
  lemma {:induction false} TailIsRead(scan: Scan, codes: seq<Codes>, intervals: seq<seq<seq<Block>>>, k: nat, before: seq<Byte>, after: seq<Byte>)
    requires Divided(scan, codes, intervals) && k < |intervals| && EndsScan(after)
    ensures var data := before + ScanTail(SegmentsOf(scan, codes, intervals), k) + after;
            && At(scan, data, StartOf(scan, |before|, k))
            && McuRun(scan, data, StartOf(scan, |before|, k), |McusFrom(intervals, k)|).0 == McusFrom(intervals, k)
    decreases |intervals| - k
  {
    hide ScanTail, StepAt, SegmentBytes, McuRun, At, Divided, SegmentsOf, StartOf, EndsScan;
    var segs := SegmentsOf(scan, codes, intervals);
    var data, mcus, n := before + ScanTail(segs, k) + after, intervals[k], |McusFrom(intervals, k)|;
    var q := IntervalIsRead(scan, codes, intervals, k, before, after, n);
    if k + 1 == |intervals| {
      NoneLeft(scan, data, q);
      assert McusFrom(intervals, k) == mcus + [];
    } else {
      var longer := before + SegmentBytes(segs[k]) + RestartMarker(k);
      TailParts(before, segs, k, after);
      TailIsRead(scan, codes, intervals, k + 1, longer, after);
      AfterRestart(scan, data, q, StartOf(scan, |longer|, k + 1), n - |mcus|);
    }
  }

  lemma NoneLeft(scan: Scan, data: seq<Byte>, q: Position)
    requires At(scan, data, q)
    ensures McuRun(scan, data, q, 0).0 == []
  {
  }

  /** The round trip of a scan: what the encoder writes for its MCUs, with a marker after it, is delivered as these MCUs;
      by DecodeChunks also when it arrives in pieces. */
  lemma ScanRoundTrips(scan: Scan, codes: seq<Codes>, intervals: seq<seq<seq<Block>>>, after: seq<Byte>)
    requires Divided(scan, codes, intervals) && EndsScan(after)
    ensures var data := ScanBytes(SegmentsOf(scan, codes, intervals)) + after;
            && At(scan, data, Beginning(scan))
            && McuRun(scan, data, Beginning(scan), |McusFrom(intervals, 0)|).0 == McusFrom(intervals, 0)
  {
    hide McuRun, At;
    var segs := SegmentsOf(scan, codes, intervals);
    ScanBytesAsTail(segs, 0);
    TailIsRead(scan, codes, intervals, 0, [], after);
    assert [] + ScanTail(segs, 0) + after == ScanBytes(segs) + after;
  }
}
