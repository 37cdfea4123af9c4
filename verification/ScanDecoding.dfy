/**
 Decoding a sequential scan from input that arrives in pieces (ProcessScan in lib/jpegli/decode_scan.cc, and
 the loop around it in lib/jpegli/decode.cc): the result does not depend on the pieces.
 */
module ScanDecoding {
  import opened Arithmetic
  import opened BitStrings
  import opened HuffmanCode
  import opened EntropyStream
  import opened BlockSymbols
  import opened BlockDecoding
  import opened HuffmanLookup
  import opened SymbolLookup
  import opened BitReader
  import opened PredictedBlocks
  import opened BlockReader
  import opened SuspendedReading
  import opened McuStability
  import opened ScanSteps

  /** The lookup tables of the components. */
  ghost predicate Tabled(scan: Scan, dcLuts: seq<array<Entry>>, acLuts: seq<array<Entry>>)
    reads set i | 0 <= i < |dcLuts| :: dcLuts[i], set i | 0 <= i < |acLuts| :: acLuts[i]
  {
    && scan.Valid() && |dcLuts| == |acLuts| == scan.components
    && forall i :: 0 <= i < |scan.kinds| ==>
         var k := scan.kinds[i];
         && dcLuts[k.component].Length == acLuts[k.component].Length == LUT_SIZE
         && Refines(k.dc, dcLuts[k.component][..]) && Refines(k.ac, acLuts[k.component][..])
  }

  // ---------------------------------------------------------------- the blocks of an MCU

  /** The first blocks of an MCU are decoded; the others are those of the bits that follow. */
  ghost predicate Begun(kinds: seq<BlockKind>, lastDc0: seq<int>, bits: Bits, i: nat, blocks: seq<Block>, lastDc: seq<int>, ahead: Bits)
    requires i <= |kinds| && |lastDc0| == |lastDc| && Supported(kinds, |lastDc|)
  {
    && McuLeft(kinds, lastDc0, bits) == McuLeft(kinds[i..], lastDc, ahead)
    && DecodeMcu(kinds, lastDc0, bits) ==
       match DecodeMcu(kinds[i..], lastDc, ahead)
       case Fail => Fail
       case Got(mcu, rest) => Got(Mcu(blocks + mcu.blocks, mcu.lastDc), rest)
  }

  lemma BeginMcu(kinds: seq<BlockKind>, lastDc: seq<int>, bits: Bits)
    requires Supported(kinds, |lastDc|)
    ensures Begun(kinds, lastDc, bits, 0, [], lastDc, bits)
  {
    assert kinds[0..] == kinds;
    match DecodeMcu(kinds, lastDc, bits)
    case Fail =>
    case Got(mcu, rest) => assert [] + mcu.blocks == mcu.blocks;
  }

  lemma NextBlock(kinds: seq<BlockKind>, lastDc0: seq<int>, bits: Bits, i: nat, blocks: seq<Block>, lastDc: seq<int>, ahead: Bits,
                  b: Block, next: Bits)
    requires i < |kinds| && |lastDc0| == |lastDc| && Supported(kinds, |lastDc|)
    requires Begun(kinds, lastDc0, bits, i, blocks, lastDc, ahead)
    requires PredictedBlock(kinds[i], lastDc[kinds[i].component], ahead) == Got(b, next)
    ensures Begun(kinds, lastDc0, bits, i + 1, blocks + [b], lastDc[kinds[i].component := b[0]], next)
  {
    hide PredictedBlock, BlockLeft, HuffmanCode.Valid;
    assert kinds[i..][0] == kinds[i] && kinds[i..][1..] == kinds[i + 1..];
    match DecodeMcu(kinds[i + 1..], lastDc[kinds[i].component := b[0]], next)
    case Fail =>
    case Got(mcu, rest) => assert blocks + ([b] + mcu.blocks) == blocks + [b] + mcu.blocks;
  }

  lemma RejectedBlock(kinds: seq<BlockKind>, lastDc0: seq<int>, bits: Bits, i: nat, blocks: seq<Block>, lastDc: seq<int>, ahead: Bits)
    requires i < |kinds| && |lastDc0| == |lastDc| && Supported(kinds, |lastDc|)
    requires Begun(kinds, lastDc0, bits, i, blocks, lastDc, ahead)
    requires PredictedBlock(kinds[i], lastDc[kinds[i].component], ahead) == Fail
    ensures DecodeMcu(kinds, lastDc0, bits) == Fail
    ensures McuLeft(kinds, lastDc0, bits) == BlockLeft(kinds[i], lastDc[kinds[i].component], ahead)
  {
    hide PredictedBlock, BlockLeft, HuffmanCode.Valid;
    assert kinds[i..][0] == kinds[i];
  }

  lemma McuComplete(kinds: seq<BlockKind>, lastDc0: seq<int>, bits: Bits, blocks: seq<Block>, lastDc: seq<int>, ahead: Bits)
    requires |lastDc0| == |lastDc| && Supported(kinds, |lastDc|)
    requires Begun(kinds, lastDc0, bits, |kinds|, blocks, lastDc, ahead)
    ensures DecodeMcu(kinds, lastDc0, bits) == Got(Mcu(blocks, lastDc), ahead)
  {
    assert kinds[|kinds|..] == [] && blocks + [] == blocks;
  }

  /** What the reader has found out about an MCU, and how far it has read. */
  ghost predicate McuRead(kinds: seq<BlockKind>, lastDc0: seq<int>, bits: Bits, ok: bool, blocks: seq<Block>, lastDc: seq<int>, ahead: Bits)
    requires |lastDc0| == |lastDc| && Supported(kinds, |lastDc|)
  {
    if ok then DecodeMcu(kinds, lastDc0, bits) == Got(Mcu(blocks, lastDc), ahead)
    else DecodeMcu(kinds, lastDc0, bits) == Fail && |ahead| <= McuLeft(kinds, lastDc0, bits)
  }

  /** All blocks of an MCU are read, even after one has been rejected. */
  method ReadBlocks(scan: Scan, dcLuts: seq<array<Entry>>, acLuts: seq<array<Entry>>, br: BitReaderState, lastDc0: seq<int>, ghost end: nat)
      returns (ok: bool, blocks: seq<Block>, lastDc: seq<int>)
    requires Tabled(scan, dcLuts, acLuts) && br.Valid() && |lastDc0| == scan.components
    requires br.Consumed() + MANY * |scan.kinds| == end
    modifies br
    ensures br.Valid() && old(br.Consumed()) <= br.Consumed() <= end && |lastDc| == |lastDc0|
    ensures McuRead(scan.kinds, lastDc0, Ahead(br.data, br.start, old(br.Consumed()), end), ok, blocks, lastDc,
                    Ahead(br.data, br.start, br.Consumed(), end))
  {
    hide Refines, Ahead, DecodeMcu, McuLeft, PredictedBlock, BlockLeft, HuffmanCode.Valid, Begun;
    ghost var c0, bits := br.Consumed(), Ahead(br.data, br.start, br.Consumed(), end);
    ok, blocks, lastDc := true, [], lastDc0;
    BeginMcu(scan.kinds, lastDc0, bits);
    for i := 0 to |scan.kinds|
      invariant Tabled(scan, dcLuts, acLuts) && br.Valid() && c0 <= br.Consumed() <= c0 + MANY * i && |lastDc| == |lastDc0|
      invariant ok ==> Begun(scan.kinds, lastDc0, bits, i, blocks, lastDc, Ahead(br.data, br.start, br.Consumed(), end))
      invariant !ok ==> DecodeMcu(scan.kinds, lastDc0, bits) == Fail && end - br.Consumed() <= McuLeft(scan.kinds, lastDc0, bits)
    {
      var kind := scan.kinds[i];
      var coeffs := new int[64](_ => 0);
      ghost var ahead, before := Ahead(br.data, br.start, br.Consumed(), end), lastDc;
      RoomForBlock(i, |scan.kinds|, c0, br.Consumed(), end);
      var blockOk, dc := DecodeDctBlock(dcLuts[kind.component], acLuts[kind.component], br, lastDc[kind.component], coeffs, kind, end);
      if ok {
        if blockOk {
          NextBlock(scan.kinds, lastDc0, bits, i, blocks, lastDc, ahead, WithDc(coeffs[..], coeffs[0]), Ahead(br.data, br.start, br.Consumed(), end));
        } else {
          RejectedBlock(scan.kinds, lastDc0, bits, i, blocks, lastDc, ahead);
        }
      }
      ok := ok && blockOk;
      assert WithDc(coeffs[..], coeffs[0]) == coeffs[..];
      blocks := blocks + [coeffs[..]];
      lastDc := lastDc[kind.component := dc];
    }
    AheadLength(br.data, br.start, br.Consumed(), end);
    if ok {
      McuComplete(scan.kinds, lastDc0, bits, blocks, lastDc, Ahead(br.data, br.start, br.Consumed(), end));
    }
  }

  lemma RoomForBlock(i: nat, n: nat, c0: nat, c: nat, end: nat)
    requires i < n && c <= c0 + MANY * i && c0 + MANY * n == end
    ensures c + MANY <= end && c + MANY <= c0 + MANY * (i + 1)
  {
  }

  // ---------------------------------------------------------------- one MCU of the input

  datatype McuResult = McuDecoded(blocks: seq<Block>, next: Position) | NeedMoreInput | EarlyEnd(marker: nat) | Rejected

  /** No further input makes a step possible here. */
  ghost predicate Hopeless(scan: Scan, data: seq<Byte>, p: Position) {
    forall more: seq<Byte> :: data <= more && At(scan, more, p) ==> StepAt(scan, more, p) == Stuck
  }

  /** What the end of the stream says about the MCU: c is the first bit that was not read. */
  lemma Verdict(scan: Scan, data: seq<Byte>, p: Position, ok: bool, blocks: seq<Block>, lastDc: seq<int>, c: nat,
                fetched: nat, streamOk: bool, newPos: nat, bitPos: nat) returns (r: McuResult)
    requires At(scan, data, p) && |lastDc| == scan.components && !(scan.interval > 0 && p.toGo == 0)
    requires !AfterFF(data, p.pos) && p.bitPos <= c <= EndOfMcu(scan, p)
    requires McuRead(scan.kinds, p.lastDc, Ahead(data, p.pos, p.bitPos, EndOfMcu(scan, p)), ok, blocks, lastDc, Ahead(data, p.pos, c, EndOfMcu(scan, p)))
    requires Finished(data, p.pos, fetched, c, streamOk, newPos) && bitPos == c % 8
    ensures r == if newPos + 2 > |data| then NeedMoreInput else if !streamOk then EarlyEnd(newPos) else if !ok then Rejected
                 else McuDecoded(blocks, Position(newPos, bitPos, lastDc, if p.toGo > 0 then p.toGo - 1 else 0, p.marker))
    ensures if r.McuDecoded? then StepAt(scan, data, p) == Decoded(r.blocks, r.next) && !AfterFF(data, r.next.pos)
            else StepAt(scan, data, p) == Stuck
    ensures r.EarlyEnd? || r.Rejected? ==> Hopeless(scan, data, p)
    ensures r.EarlyEnd? ==> p.pos <= newPos && AtMarker(data, newPos)
  {
    r := if newPos + 2 > |data| then NeedMoreInput else if !streamOk then EarlyEnd(newPos) else if !ok then Rejected
         else McuDecoded(blocks, Position(newPos, bitPos, lastDc, if p.toGo > 0 then p.toGo - 1 else 0, p.marker));
    McuOfRead(scan, data, p, ok, blocks, lastDc, c);
    hide Ahead, DecodeMcu, McuLeft, PosAt, Bytes, McuStep, McuRead, EndOfMcu, EndOf;
    if r.EarlyEnd? {
      EarlyEndIsMarker(data, p.pos);
    }
    if r.McuDecoded? {
      PosIsNoStuffing(data, p.pos, c / 8);
    } else if r.EarlyEnd? || r.Rejected? {
      forall more: seq<Byte> | data <= more && At(scan, more, p)
        ensures StepAt(scan, more, p) == Stuck
      {
        if r.EarlyEnd? {
          EarlyEndStays(scan, data, more, p);
        } else {
          LeftOfRead(scan, data, p, blocks, lastDc, c);
          RejectedStays(scan, data, more, p, c);
        }
      }
    }
  }

  lemma McuOfRead(scan: Scan, data: seq<Byte>, p: Position, ok: bool, blocks: seq<Block>, lastDc: seq<int>, c: nat)
    requires At(scan, data, p) && |lastDc| == scan.components && p.bitPos <= c <= EndOfMcu(scan, p)
    requires McuRead(scan.kinds, p.lastDc, Ahead(data, p.pos, p.bitPos, EndOfMcu(scan, p)), ok, blocks, lastDc, Ahead(data, p.pos, c, EndOfMcu(scan, p)))
    ensures McuStep(scan, data, p) ==
            if ok && c <= 8 * |Bytes(data, p.pos)| && PosAt(data, p.pos, c / 8) + 2 <= |data|
            then Decoded(blocks, Position(PosAt(data, p.pos, c / 8), c % 8, lastDc, if p.toGo > 0 then p.toGo - 1 else 0, p.marker))
            else Stuck
  {
    hide Ahead, DecodeMcu, McuLeft, PosAt, Bytes, EndOfMcu;
    AheadLength(data, p.pos, c, EndOfMcu(scan, p));
  }

  lemma LeftOfRead(scan: Scan, data: seq<Byte>, p: Position, blocks: seq<Block>, lastDc: seq<int>, c: nat)
    requires At(scan, data, p) && |lastDc| == scan.components && p.bitPos <= c <= EndOfMcu(scan, p)
    requires McuRead(scan.kinds, p.lastDc, Ahead(data, p.pos, p.bitPos, EndOfMcu(scan, p)), false, blocks, lastDc, Ahead(data, p.pos, c, EndOfMcu(scan, p)))
    ensures var bits := Ahead(data, p.pos, p.bitPos, EndOfMcu(scan, p));
            DecodeMcu(scan.kinds, p.lastDc, bits) == Fail && c >= EndOfMcu(scan, p) - McuLeft(scan.kinds, p.lastDc, bits)
  {
    hide Ahead, DecodeMcu, McuLeft, EndOfMcu;
    AheadLength(data, p.pos, c, EndOfMcu(scan, p));
  }

  /** One MCU, if the input has it. Otherwise either more input is needed, or none would help. */
  method DecodeOneMcu(scan: Scan, dcLuts: seq<array<Entry>>, acLuts: seq<array<Entry>>, data: seq<Byte>, p: Position) returns (r: McuResult)
    requires Tabled(scan, dcLuts, acLuts) && At(scan, data, p) && !(scan.interval > 0 && p.toGo == 0)
    requires 0 < |data| && !AfterFF(data, p.pos)
    ensures if r.McuDecoded? then StepAt(scan, data, p) == Decoded(r.blocks, r.next) && !AfterFF(data, r.next.pos)
            else StepAt(scan, data, p) == Stuck
    ensures r.EarlyEnd? || r.Rejected? ==> Hopeless(scan, data, p)
    ensures r.EarlyEnd? ==> p.pos <= r.marker && AtMarker(data, r.marker)
  {
    hide Refines, Ahead, McuRead, Finished, StepAt, Hopeless, EndOfMcu;
    var br := new BitReaderState(data, p.pos);
    if p.bitPos > 0 {
      var skipped := br.ReadBits(p.bitPos);
    }
    EnoughForMcu(scan, p);
    ghost var end := EndOfMcu(scan, p);
    var ok, blocks, lastDc := ReadBlocks(scan, dcLuts, acLuts, br, p.lastDc, end);
    ghost var c, fetched := br.Consumed(), br.fetched;
    var streamOk, newPos, bitPos := br.FinishStream();
    ghost var verdict := Verdict(scan, data, p, ok, blocks, lastDc, c, fetched, streamOk, newPos, bitPos);
    if newPos + 2 > |data| {
      return NeedMoreInput;
    }
    if !streamOk {
      return EarlyEnd(newPos);
    }
    if !ok {
      return Rejected;
    }
    return McuDecoded(blocks, Position(newPos, bitPos, lastDc, if p.toGo > 0 then p.toGo - 1 else 0, p.marker));
  }

  // ---------------------------------------------------------------- a piece of the input

  /** Whatever further input there is: the first n MCUs from p on are these, followed by those from q on. */
  ghost predicate Continues(scan: Scan, data: seq<Byte>, p: Position, n: nat, mcus: seq<seq<Block>>, q: Position) {
    && |mcus| <= n
    && forall more: seq<Byte> :: data <= more ==>
         At(scan, more, p) && At(scan, more, q) && McuRun(scan, more, p, n).0 == mcus + McuRun(scan, more, q, n - |mcus|).0
  }

  lemma NothingYet(scan: Scan, data: seq<Byte>, p: Position, n: nat)
    requires At(scan, data, p)
    ensures Continues(scan, data, p, n, [], p)
  {
    hide McuRun;
    forall more: seq<Byte> | data <= more
      ensures At(scan, more, p) && McuRun(scan, more, p, n).0 == [] + McuRun(scan, more, p, n).0
    {
      AtStays(scan, data, more, p);
    }
  }

  lemma ContinuesAt(scan: Scan, data: seq<Byte>, p: Position, n: nat, mcus: seq<seq<Block>>, q: Position, more: seq<Byte>)
    requires Continues(scan, data, p, n, mcus, q) && data <= more
    ensures |mcus| <= n && At(scan, more, p) && At(scan, more, q)
    ensures McuRun(scan, more, p, n).0 == mcus + McuRun(scan, more, q, n - |mcus|).0
  {
  }

  lemma OneMoreMcu(scan: Scan, data: seq<Byte>, p: Position, n: nat, mcus: seq<seq<Block>>, q: Position)
    requires Continues(scan, data, p, n, mcus, q) && |mcus| < n && At(scan, data, q) && StepAt(scan, data, q).Decoded?
    ensures At(scan, data, StepAt(scan, data, q).next)
    ensures Continues(scan, data, p, n, mcus + [StepAt(scan, data, q).blocks], StepAt(scan, data, q).next)
  {
    hide StepAt, Continues;
    StepIsAt(scan, data, q);
    var step := StepAt(scan, data, q);
    forall more: seq<Byte> | data <= more
      ensures At(scan, more, p) && At(scan, more, step.next)
      ensures McuRun(scan, more, p, n).0 == mcus + [step.blocks] + McuRun(scan, more, step.next, n - |mcus| - 1).0
    {
      ContinuesAt(scan, data, p, n, mcus, q, more);
      AtStays(scan, data, more, q);
      AtStays(scan, data, more, step.next);
      StepStays(scan, data, more, q);
      assert McuRun(scan, more, q, n - |mcus|).0 == [step.blocks] + McuRun(scan, more, step.next, n - |mcus| - 1).0;
    }
    AllContinue(scan, data, p, n, mcus + [step.blocks], step.next);
  }

  lemma AllContinue(scan: Scan, data: seq<Byte>, p: Position, n: nat, mcus: seq<seq<Block>>, q: Position)
    requires |mcus| <= n
    requires forall more: seq<Byte> :: data <= more ==>
      At(scan, more, p) && At(scan, more, q) && McuRun(scan, more, p, n).0 == mcus + McuRun(scan, more, q, n - |mcus|).0
    ensures Continues(scan, data, p, n, mcus, q)
  {
  }

  /** A step that delivers nothing: a restart, or the search for one. */
  lemma SameRest(scan: Scan, data: seq<Byte>, p: Position, n: nat, mcus: seq<seq<Block>>, q: Position, next: Position)
    requires Continues(scan, data, p, n, mcus, q) && |mcus| < n && At(scan, data, q) && At(scan, data, next)
    requires forall more: seq<Byte> :: data <= more && At(scan, more, q) && At(scan, more, next) ==>
      StepAt(scan, more, q) == Restarted(next) || StepAt(scan, more, q) == StepAt(scan, more, next)
    ensures Continues(scan, data, p, n, mcus, next)
  {
    hide StepAt, Continues;
    forall more: seq<Byte> | data <= more
      ensures At(scan, more, p) && At(scan, more, next)
      ensures McuRun(scan, more, p, n).0 == mcus + McuRun(scan, more, next, n - |mcus|).0
    {
      ContinuesAt(scan, data, p, n, mcus, q, more);
      AtStays(scan, data, more, q);
      AtStays(scan, data, more, next);
      assert McuRun(scan, more, q, n - |mcus|).0 == McuRun(scan, more, next, n - |mcus|).0;
    }
    ContinuesAt(scan, data, p, n, mcus, q, data);
    AllContinue(scan, data, p, n, mcus, next);
  }

  /** The start of a restart interval, or the rest of one, does not come after an FF. */
  ghost predicate Startable(scan: Scan, data: seq<Byte>, p: Position) {
    (scan.interval > 0 && p.toGo == 0) || !AfterFF(data, p.pos)
  }

  /** The loop that looks for a marker. */
  method SearchMarker(data: seq<Byte>, from: nat) returns (m: nat)
    requires from <= |data|
    ensures m == FindMarker(data, from)
  {
    m := from;
    while m + 1 < |data| && (data[m] != 0xFF || data[m + 1] == 0 || data[m + 1] == 0xFF)
      invariant from <= m <= |data| && FindMarker(data, m) == FindMarker(data, from)
    {
      m := m + 1;
    }
  }

  lemma WrongMarker(scan: Scan, data: seq<Byte>, p: Position)
    requires At(scan, data, p) && scan.interval > 0 && p.toGo == 0
    requires FindMarker(data, SkipPartial(data, p)) + 2 <= |data| && RestartStep(scan, data, p) == Stuck
    ensures Hopeless(scan, data, p)
  {
    hide RestartStep, FindMarker;
    forall more: seq<Byte> | data <= more && At(scan, more, p)
      ensures StepAt(scan, more, p) == Stuck
    {
      RestartStays(scan, data, more, p);
    }
  }

  lemma SearchGoesOn(scan: Scan, data: seq<Byte>, p: Position, n: nat, mcus: seq<seq<Block>>, q: Position)
    requires Continues(scan, data, p, n, mcus, q) && |mcus| < n && At(scan, data, q) && scan.interval > 0 && q.toGo == 0
    requires FindMarker(data, SkipPartial(data, q)) + 2 > |data|
    ensures var next := Searching(scan, data, q);
            At(scan, data, next) && Continues(scan, data, p, n, mcus, next) && StepAt(scan, data, next) == Stuck
  {
    var next := Searching(scan, data, q);
    RestartStays(scan, data, data, q);
    forall more: seq<Byte> | data <= more && At(scan, more, q) && At(scan, more, next)
      ensures StepAt(scan, more, q) == StepAt(scan, more, next)
    {
      RestartStays(scan, data, more, q);
    }
    hide RestartStep, McuStep, Continues;
    SameRest(scan, data, p, n, mcus, q, next);
  }

  lemma RestartPassed(scan: Scan, data: seq<Byte>, p: Position, n: nat, mcus: seq<seq<Block>>, q: Position)
    requires Continues(scan, data, p, n, mcus, q) && |mcus| < n && At(scan, data, q) && StepAt(scan, data, q).Restarted?
    ensures var next := StepAt(scan, data, q).next; At(scan, data, next) && Continues(scan, data, p, n, mcus, next) && next.pos > q.pos
  {
    hide StepAt, Continues;
    StepIsAt(scan, data, q);
    var next := StepAt(scan, data, q).next;
    forall more: seq<Byte> | data <= more && At(scan, more, q) && At(scan, more, next)
      ensures StepAt(scan, more, q) == Restarted(next)
    {
      StepStays(scan, data, more, q);
    }
    SameRest(scan, data, p, n, mcus, q, next);
  }

  lemma NothingInNothing(scan: Scan, p: Position)
    requires At(scan, [], p)
    ensures StepAt(scan, [], p) == Stuck
  {
    hide DecodeMcu, Ahead;
  }

  /** The restart step, from the place that the search found. */
  lemma RestartIs(scan: Scan, data: seq<Byte>, p: Position, m: nat)
    requires At(scan, data, p) && scan.interval > 0 && p.toGo == 0 && m == FindMarker(data, SkipPartial(data, p))
    ensures StepAt(scan, data, p) == RestartStep(scan, data, p)
    ensures m + 2 <= |data| && data[m + 1] == 0xD0 + p.marker ==>
            var next := Position(m + 2, 0, NoPrediction(scan), scan.interval, (p.marker + 1) % 8);
            StepAt(scan, data, p) == Restarted(next) && !AfterFF(data, next.pos)
    ensures m + 2 > |data| || data[m + 1] != 0xD0 + p.marker ==> StepAt(scan, data, p) == Stuck
    ensures Searching(scan, data, p) == Position(m, 0, NoPrediction(scan), p.toGo, p.marker)
  {
    hide FindMarker;
  }
}
