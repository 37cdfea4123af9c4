/**
 A sequential scan as a sequence of steps over the input (lib/jpegli/decode_scan.cc): one step decodes an MCU
 or passes a restart marker. With any further input a step is the same.
 */
module ScanSteps {
  import opened Arithmetic
  import opened BitStrings
  import opened HuffmanCode
  import opened EntropyStream
  import opened BlockSymbols
  import opened BlockDecoding
  import opened PredictedBlocks
  import opened BlockReader
  import opened SuspendedReading
  import opened McuStability

  /** The blocks of an MCU, the restart interval in MCUs (0 for none), and the number of components. */
  datatype Scan = Scan(kinds: seq<BlockKind>, interval: nat, components: nat)
  {
    predicate Valid() {
      Supported(kinds, components)
    }
  }

  /** Where decoding stands: byte and bit position, predictions, MCUs up to the next restart, and the number of the
      next restart marker. */
  datatype Position = Position(pos: nat, bitPos: nat, lastDc: seq<int>, toGo: nat, marker: nat)

  /** Positions between two steps: a byte that was read in part is there, and the next one. */
  predicate At(scan: Scan, data: seq<Byte>, p: Position) {
    && scan.Valid() && |p.lastDc| == scan.components && p.pos <= |data| && p.bitPos < 8 && p.marker < 8
    && (p.bitPos > 0 ==> p.pos + 2 <= |data| && More(data, p.pos))
  }

  datatype Step = Stuck | Decoded(blocks: seq<Block>, next: Position) | Restarted(next: Position)

  // ---------------------------------------------------------------- one MCU

  function EndOfMcu(scan: Scan, p: Position): nat {
    p.bitPos + MANY * |scan.kinds|
  }

  /** A decoded MCU as a step: its end must not lie past the segment or in the last two bytes. */
  function StepOf(scan: Scan, data: seq<Byte>, p: Position, d: Decoded<Mcu>): (r: Step)
    ensures !r.Restarted?
  {
    match d
    case Fail => Stuck
    case Got(mcu, rest) =>
      if |rest| > EndOfMcu(scan, p) then Stuck else
        var c := EndOfMcu(scan, p) - |rest|;
        var pos := PosAt(data, p.pos, c / 8);
        if c <= 8 * |Bytes(data, p.pos)| && pos + 2 <= |data|
        then Decoded(mcu.blocks, Position(pos, c % 8, mcu.lastDc, if p.toGo > 0 then p.toGo - 1 else 0, p.marker))
        else Stuck
  }

  /** The MCU at a position. */
  function McuStep(scan: Scan, data: seq<Byte>, p: Position): (r: Step)
    requires At(scan, data, p)
    ensures !r.Restarted?
  {
    StepOf(scan, data, p, DecodeMcu(scan.kinds, p.lastDc, Ahead(data, p.pos, p.bitPos, EndOfMcu(scan, p))))
  }

  lemma {:induction false} SameBytes(data: seq<Byte>, more: seq<Byte>, pos: nat, k: nat)
    requires data <= more && k <= |Bytes(data, pos)| && PosAt(data, pos, k) + 2 <= |data|
    ensures k <= |Bytes(more, pos)| && (k < |Bytes(data, pos)| ==> k < |Bytes(more, pos)|)
    decreases k
  {
    if More(data, pos) {
      PosNotBelow(data, pos, k);
      assert data[pos] == more[pos] && (pos + 1 < |data| ==> data[pos + 1] == more[pos + 1]);
      if k > 0 {
        var next := Next(data, pos);
        PosNotBelow(data, next, k - 1);
        assert More(more, pos) && Next(more, pos) == next;
        SameBytes(data, more, next, k - 1);
      }
    }
  }

  /** What McuStep finds, for the bit after the MCU. */
  lemma McuStepIs(scan: Scan, data: seq<Byte>, p: Position, mcu: Mcu, c: nat)
    requires At(scan, data, p) && p.bitPos <= c <= EndOfMcu(scan, p)
    requires DecodeMcu(scan.kinds, p.lastDc, Ahead(data, p.pos, p.bitPos, EndOfMcu(scan, p)))
          == Got(mcu, Ahead(data, p.pos, c, EndOfMcu(scan, p)))
    ensures McuStep(scan, data, p) ==
            if c <= 8 * |Bytes(data, p.pos)| && PosAt(data, p.pos, c / 8) + 2 <= |data|
            then Decoded(mcu.blocks, Position(PosAt(data, p.pos, c / 8), c % 8, mcu.lastDc, if p.toGo > 0 then p.toGo - 1 else 0, p.marker))
            else Stuck
  {
    hide DecodeMcu, Ahead, PosAt, Bytes, EndOfMcu;
    AheadLength(data, p.pos, c, EndOfMcu(scan, p));
  }

  /** The bit after an MCU. */
  lemma McuEnds(scan: Scan, data: seq<Byte>, p: Position) returns (c: nat)
    requires At(scan, data, p) && DecodeMcu(scan.kinds, p.lastDc, Ahead(data, p.pos, p.bitPos, EndOfMcu(scan, p))).Got?
    ensures p.bitPos <= c <= EndOfMcu(scan, p)
    ensures var bits := Ahead(data, p.pos, p.bitPos, EndOfMcu(scan, p));
            c == EndOfMcu(scan, p) - McuLeft(scan.kinds, p.lastDc, bits) == EndOfMcu(scan, p) - |DecodeMcu(scan.kinds, p.lastDc, bits).rest|
    ensures McuStep(scan, data, p).Decoded? ==> c <= 8 * |Bytes(data, p.pos)| && PosAt(data, p.pos, c / 8) + 2 <= |data|
  {
    var end := EndOfMcu(scan, p);
    hide DecodeMcu, Ahead, McuLeft, PosAt, Bytes;
    AheadLength(data, p.pos, p.bitPos, end);
    McuLeftBound(scan.kinds, p.lastDc, Ahead(data, p.pos, p.bitPos, end));
    c := end - McuLeft(scan.kinds, p.lastDc, Ahead(data, p.pos, p.bitPos, end));
  }

  lemma EnoughForMcu(scan: Scan, p: Position)
    ensures p.bitPos <= p.bitPos + MANY * |scan.kinds| == EndOfMcu(scan, p)
  {
  }

  lemma DecodedHasMcu(scan: Scan, data: seq<Byte>, p: Position)
    requires At(scan, data, p) && McuStep(scan, data, p).Decoded?
    ensures DecodeMcu(scan.kinds, p.lastDc, Ahead(data, p.pos, p.bitPos, EndOfMcu(scan, p))).Got?
  {
    hide DecodeMcu, Ahead, PosAt, Bytes, EndOfMcu;
  }

  lemma AtIsSupported(scan: Scan, data: seq<Byte>, p: Position)
    requires At(scan, data, p)
    ensures Supported(scan.kinds, |p.lastDc|) && p.pos <= |data|
  {
  }

  lemma IsSettled(data: seq<Byte>, more: seq<Byte>, pos: nat, c: nat)
    requires data <= more && pos <= |data| && PosAt(data, pos, c / 8) + 2 <= |data|
    ensures Settled(data, more, pos, c)
  {
  }

  /** The same MCU, ending at the same bit, in both inputs. */
  lemma SameMcu(scan: Scan, data: seq<Byte>, more: seq<Byte>, p: Position) returns (mcu: Mcu, c: nat)
    requires At(scan, data, p) && data <= more && McuStep(scan, data, p).Decoded?
    ensures p.bitPos <= c <= EndOfMcu(scan, p)
    ensures DecodeMcu(scan.kinds, p.lastDc, Ahead(data, p.pos, p.bitPos, EndOfMcu(scan, p))) == Got(mcu, Ahead(data, p.pos, c, EndOfMcu(scan, p)))
    ensures DecodeMcu(scan.kinds, p.lastDc, Ahead(more, p.pos, p.bitPos, EndOfMcu(scan, p))) == Got(mcu, Ahead(more, p.pos, c, EndOfMcu(scan, p)))
    ensures c <= 8 * |Bytes(data, p.pos)| && PosAt(data, p.pos, c / 8) + 2 <= |data|
  {
    hide *;
    EnoughForMcu(scan, p);
    DecodedHasMcu(scan, data, p);
    var end, bits := EndOfMcu(scan, p), Ahead(data, p.pos, p.bitPos, EndOfMcu(scan, p));
    AtIsSupported(scan, data, p);
    c := McuEnds(scan, data, p);
    IsSettled(data, more, p.pos, c);
    McuSettled(scan.kinds, p.lastDc, data, more, p.pos, p.bitPos, end);
    mcu := DecodeMcu(scan.kinds, p.lastDc, bits).value;
  }

  /** An MCU that was decoded stays decoded. */
  lemma McuStepStays(scan: Scan, data: seq<Byte>, more: seq<Byte>, p: Position)
    requires At(scan, data, p) && At(scan, more, p) && data <= more && McuStep(scan, data, p).Decoded?
    ensures McuStep(scan, more, p) == McuStep(scan, data, p)
  {
    var mcu, c := SameMcu(scan, data, more, p);
    hide *;
    McuStepIs(scan, data, p, mcu, c);
    McuStepIs(scan, more, p, mcu, c);
    SamePlace(data, more, p.pos, c);
  }

  lemma SamePlace(data: seq<Byte>, more: seq<Byte>, pos: nat, c: nat)
    requires data <= more && pos <= |data| && c <= 8 * |Bytes(data, pos)| && PosAt(data, pos, c / 8) + 2 <= |data|
    ensures PosAt(more, pos, c / 8) == PosAt(data, pos, c / 8) && PosAt(more, pos, c / 8) + 2 <= |more| && c <= 8 * |Bytes(more, pos)|
  {
    hide PosAt, Bytes;
    SamePosition(data, more, pos, c / 8);
    SameBytes(data, more, pos, c / 8);
  }

  lemma AtStays(scan: Scan, data: seq<Byte>, more: seq<Byte>, p: Position)
    requires At(scan, data, p) && data <= more
    ensures At(scan, more, p)
  {
  }

  lemma McuStepIsAt(scan: Scan, data: seq<Byte>, p: Position)
    requires At(scan, data, p) && McuStep(scan, data, p).Decoded?
    ensures At(scan, data, McuStep(scan, data, p).next) && |McuStep(scan, data, p).blocks| == |scan.kinds|
  {
    hide Ahead, PosAt, Bytes, DecodeMcu;
    var end := EndOfMcu(scan, p);
    var bits := Ahead(data, p.pos, p.bitPos, end);
    McuShape(scan.kinds, p.lastDc, bits);
    var c := end - |DecodeMcu(scan.kinds, p.lastDc, bits).rest|;
    if c % 8 > 0 {
      Inside(data, p.pos, c / 8);
    }
  }

  lemma {:induction false} McuShape(kinds: seq<BlockKind>, lastDc: seq<int>, bits: Bits)
    requires Supported(kinds, |lastDc|)
    ensures var d := DecodeMcu(kinds, lastDc, bits); d.Got? ==> |d.value.blocks| == |kinds| && |d.value.lastDc| == |lastDc|
  {
    hide PredictedBlock, HuffmanCode.Valid;
    if kinds != [] && PredictedBlock(kinds[0], lastDc[kinds[0].component], bits).Got? {
      var Got(b, rest) := PredictedBlock(kinds[0], lastDc[kinds[0].component], bits);
      McuShape(kinds[1..], lastDc[kinds[0].component := b[0]], rest);
    }
  }

  /** An MCU that is rejected before the last two bytes is rejected with any further input. */
  lemma RejectedStays(scan: Scan, data: seq<Byte>, more: seq<Byte>, p: Position, c: nat)
    requires At(scan, data, p) && At(scan, more, p) && data <= more && PosAt(data, p.pos, c / 8) + 2 <= |data|
    requires var bits := Ahead(data, p.pos, p.bitPos, EndOfMcu(scan, p));
             DecodeMcu(scan.kinds, p.lastDc, bits) == Fail && c >= EndOfMcu(scan, p) - McuLeft(scan.kinds, p.lastDc, bits)
    ensures McuStep(scan, more, p) == Stuck
  {
    hide DecodeMcu, Ahead, PosAt, Bytes, McuLeft;
    var end := EndOfMcu(scan, p);
    var bits := Ahead(data, p.pos, p.bitPos, end);
    AheadLength(data, p.pos, p.bitPos, end);
    McuLeftBound(scan.kinds, p.lastDc, bits);
    SettledBefore(data, more, p.pos, end - McuLeft(scan.kinds, p.lastDc, bits), c);
    McuSettled(scan.kinds, p.lastDc, data, more, p.pos, p.bitPos, end);
  }

  lemma SameByteAt(data: seq<Byte>, more: seq<Byte>, pos: nat)
    requires |data| <= |more| && EndOf(data, pos) < |data| && Bytes(more, pos) == Bytes(data, pos) && EndOf(more, pos) == EndOf(data, pos)
    ensures forall k: nat :: ByteAt(more, pos, k) == ByteAt(data, pos, k)
  {
    hide Bytes, EndOf;
  }

  lemma SameStream(data: seq<Byte>, more: seq<Byte>, pos: nat, c: nat, n: nat)
    requires data <= more && EndOf(data, pos) < |data|
    ensures Stream(more, pos, c, n) == Stream(data, pos, c, n)
  {
    hide *;
    SameUpToMarker(data, more, pos);
    SameByteAt(data, more, pos);
    StreamOfSame(data, more, pos, c, n);
  }

  lemma StreamOfSame(data: seq<Byte>, more: seq<Byte>, pos: nat, c: nat, n: nat)
    requires forall k: nat :: ByteAt(more, pos, k) == ByteAt(data, pos, k)
    ensures Stream(more, pos, c, n) == Stream(data, pos, c, n)
  {
    hide ByteAt, Bit;
    forall i | 0 <= i < n
      ensures Stream(more, pos, c, n)[i] == Stream(data, pos, c, n)[i]
    {
      SameBit(data, more, pos, c + i);
      assert Stream(more, pos, c, n)[i] == Bit(more, pos, c + i) && Stream(data, pos, c, n)[i] == Bit(data, pos, c + i);
    }
  }

  lemma SameBit(data: seq<Byte>, more: seq<Byte>, pos: nat, i: nat)
    requires ByteAt(more, pos, i / 8) == ByteAt(data, pos, i / 8)
    ensures Bit(more, pos, i) == Bit(data, pos, i)
  {
    hide ByteAt;
  }

  /** If the segment ends at a marker that is not within the last byte, no MCU is found later either. */
  lemma EarlyEndStays(scan: Scan, data: seq<Byte>, more: seq<Byte>, p: Position)
    requires At(scan, data, p) && At(scan, more, p) && data <= more
    requires EndOf(data, p.pos) + 2 <= |data| && McuStep(scan, data, p) == Stuck
    ensures McuStep(scan, more, p) == Stuck
  {
    hide DecodeMcu, PosAt, Bytes, Stream;
    var end := EndOfMcu(scan, p);
    SameStream(data, more, p.pos, p.bitPos, end - p.bitPos);
    SameUpToMarker(data, more, p.pos);
    var bits := Ahead(data, p.pos, p.bitPos, end);
    assert Ahead(more, p.pos, p.bitPos, end) == bits;
    if DecodeMcu(scan.kinds, p.lastDc, bits).Got? && |DecodeMcu(scan.kinds, p.lastDc, bits).rest| <= end {
      var c := end - |DecodeMcu(scan.kinds, p.lastDc, bits).rest|;
      if c <= 8 * |Bytes(data, p.pos)| {
        assert c / 8 <= |Bytes(data, p.pos)|;
        PosBelowEnd(data, p.pos, c / 8);
        assert false;
      }
    }
  }

  // ---------------------------------------------------------------- restarts

  /** The end of a segment: the rest of a byte that was read in part is skipped. */
  function SkipPartial(data: seq<Byte>, p: Position): (q: nat)
    requires p.pos <= |data| && (p.bitPos > 0 ==> p.pos + 2 <= |data|)
    ensures p.pos <= q <= |data|
  {
    if p.bitPos == 0 then p.pos else Next(data, p.pos)
  }

  /** FF and a code that is neither 0 nor FF. */
  predicate CodeAfter(data: seq<Byte>, q: nat) {
    q + 1 < |data| && data[q] == 0xFF && data[q + 1] != 0 && data[q + 1] != 0xFF
  }

  /** The first such place, or the last byte. */
  function FindMarker(data: seq<Byte>, q: nat): (m: nat)
    requires q <= |data|
    ensures q <= m <= |data| && (m + 2 <= |data| ==> CodeAfter(data, m))
    decreases |data| - q
  {
    if q + 1 >= |data| || CodeAfter(data, q) then q else FindMarker(data, q + 1)
  }

  function NoPrediction(scan: Scan): (s: seq<int>)
    ensures |s| == scan.components && forall c :: 0 <= c < |s| ==> s[c] == 0
  {
    seq(scan.components, _ => 0)
  }

  /** The restart marker, if it is the expected one. */
  function RestartStep(scan: Scan, data: seq<Byte>, p: Position): Step
    requires At(scan, data, p)
  {
    var m := FindMarker(data, SkipPartial(data, p));
    if m + 2 <= |data| && data[m + 1] == 0xD0 + p.marker
    then Restarted(Position(m + 2, 0, NoPrediction(scan), scan.interval, (p.marker + 1) % 8))
    else Stuck
  }

  lemma {:induction false} FoundStays(data: seq<Byte>, more: seq<Byte>, q: nat)
    requires data <= more && q <= |data|
    ensures var m := FindMarker(data, q); if m + 2 <= |data| then FindMarker(more, q) == m else FindMarker(more, q) == FindMarker(more, m)
    decreases |data| - q
  {
    if q + 1 < |data| {
      assert CodeAfter(data, q) <==> CodeAfter(more, q);
      if !CodeAfter(data, q) {
        FoundStays(data, more, q + 1);
      }
    }
  }

  /** While the marker is missing, the bytes before it can be dropped. */
  function Searching(scan: Scan, data: seq<Byte>, p: Position): Position
    requires At(scan, data, p)
  {
    Position(FindMarker(data, SkipPartial(data, p)), 0, NoPrediction(scan), p.toGo, p.marker)
  }

  lemma RestartStays(scan: Scan, data: seq<Byte>, more: seq<Byte>, p: Position)
    requires At(scan, data, p) && At(scan, more, p) && data <= more
    ensures At(scan, more, Searching(scan, data, p))
    ensures if FindMarker(data, SkipPartial(data, p)) + 2 <= |data| then RestartStep(scan, more, p) == RestartStep(scan, data, p)
            else RestartStep(scan, more, p) == RestartStep(scan, more, Searching(scan, data, p))
  {
    SamePartial(data, more, p);
    FoundStays(data, more, SkipPartial(data, p));
    hide FindMarker, SkipPartial, More;
    NoPartial(more, Searching(scan, data, p));
  }

  lemma SamePartial(data: seq<Byte>, more: seq<Byte>, p: Position)
    requires data <= more && p.pos <= |data| && (p.bitPos > 0 ==> p.pos + 2 <= |data|)
    ensures SkipPartial(more, p) == SkipPartial(data, p)
  {
  }

  lemma NoPartial(data: seq<Byte>, p: Position)
    requires p.bitPos == 0 && p.pos <= |data|
    ensures SkipPartial(data, p) == p.pos
  {
  }

  // ---------------------------------------------------------------- steps and runs

  function StepAt(scan: Scan, data: seq<Byte>, p: Position): Step
    requires At(scan, data, p)
  {
    if scan.interval > 0 && p.toGo == 0 then RestartStep(scan, data, p) else McuStep(scan, data, p)
  }

  lemma StepIsAt(scan: Scan, data: seq<Byte>, p: Position)
    requires At(scan, data, p) && StepAt(scan, data, p) != Stuck
    ensures At(scan, data, StepAt(scan, data, p).next)
    ensures StepAt(scan, data, p).Restarted? ==> StepAt(scan, data, p).next.pos > p.pos
  {
    if !(scan.interval > 0 && p.toGo == 0) {
      hide McuStep;
      McuStepIsAt(scan, data, p);
    }
  }

  /** With further input a step is the same. */
  lemma StepStays(scan: Scan, data: seq<Byte>, more: seq<Byte>, p: Position)
    requires At(scan, data, p) && At(scan, more, p) && data <= more && StepAt(scan, data, p) != Stuck
    ensures StepAt(scan, more, p) == StepAt(scan, data, p)
  {
    hide McuStep;
    if scan.interval > 0 && p.toGo == 0 {
      RestartStays(scan, data, more, p);
    } else {
      McuStepStays(scan, data, more, p);
    }
  }

  /** The next n MCUs, as far as they can be decoded, and the position after them. */
  function McuRun(scan: Scan, data: seq<Byte>, p: Position, n: nat): (r: (seq<seq<Block>>, Position))
    requires At(scan, data, p)
    ensures |r.0| <= n && At(scan, data, r.1)
    decreases n, |data| - p.pos
  {
    if n == 0 then ([], p) else
      match StepAt(scan, data, p)
      case Stuck => ([], p)
      case Decoded(blocks, next) =>
        StepIsAt(scan, data, p);
        var (rest, end) := McuRun(scan, data, next, n - 1);
        ([blocks] + rest, end)
      case Restarted(next) =>
        StepIsAt(scan, data, p);
        McuRun(scan, data, next, n)
  }

  /** A run over a part of the input is the beginning of the run over all of it. */
  lemma {:induction false} RunStays(scan: Scan, data: seq<Byte>, more: seq<Byte>, p: Position, n: nat)
    requires At(scan, data, p) && At(scan, more, p) && data <= more
    ensures var (mcus, q) := McuRun(scan, data, p, n);
            && At(scan, more, q)
            && McuRun(scan, more, p, n) == (mcus + McuRun(scan, more, q, n - |mcus|).0, McuRun(scan, more, q, n - |mcus|).1)
    decreases n, |data| - p.pos
  {
    hide StepAt;
    if n > 0 && StepAt(scan, data, p) != Stuck {
      StepStays(scan, data, more, p);
      StepIsAt(scan, data, p);
      StepIsAt(scan, more, p);
      var step := StepAt(scan, data, p);
      if step.Decoded? {
        RunStays(scan, data, more, step.next, n - 1);
        var (mcus, q) := McuRun(scan, data, step.next, n - 1);
        var rest := McuRun(scan, more, q, n - 1 - |mcus|);
        assert [step.blocks] + (mcus + rest.0) == [step.blocks] + mcus + rest.0;
      } else {
        RunStays(scan, data, more, step.next, n);
      }
    } else {
      assert McuRun(scan, data, p, n) == ([], p);
      var r := McuRun(scan, more, p, n);
      assert [] + r.0 == r.0 && r == (r.0, r.1);
    }
  }
}
