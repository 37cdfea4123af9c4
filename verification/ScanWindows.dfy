/** Steps of a scan do not depend on input that has been consumed and dropped. */
module ScanWindows {
  import opened Arithmetic
  import opened EntropyStream
  import opened BlockDecoding
  import opened BlockReader
  import opened McuStability
  import opened ScanSteps

  lemma DroppedMore(data: seq<Byte>, off: nat, pos: nat)
    requires off <= pos && off <= |data|
    ensures More(data[off..], pos - off) <==> More(data, pos)
    ensures AtMarker(data[off..], pos - off) <==> AtMarker(data, pos)
    ensures pos < |data| ==> data[off..][pos - off] == data[pos] && Next(data[off..], pos - off) + off == Next(data, pos)
  {
  }

  lemma {:induction false} DroppedBytes(data: seq<Byte>, off: nat, pos: nat)
    requires off <= pos && off <= |data|
    ensures Bytes(data[off..], pos - off) == Bytes(data, pos)
    decreases |data| - pos
  {
    DroppedMore(data, off, pos);
    BytesStep(data, pos);
    BytesStep(data[off..], pos - off);
    hide Bytes, More, Next, AtMarker;
    if More(data, pos) {
      NextIsLater(data, pos);
      DroppedBytes(data, off, Next(data, pos));
    }
  }

  lemma NextIsLater(data: seq<Byte>, pos: nat)
    requires More(data, pos)
    ensures pos < |data| && pos < Next(data, pos)
  {
  }

  lemma BytesStep(data: seq<Byte>, pos: nat)
    ensures More(data, pos) ==> pos < |data| && Bytes(data, pos) == [data[pos]] + Bytes(data, Next(data, pos))
    ensures !More(data, pos) ==> Bytes(data, pos) == []
  {
  }

  lemma {:induction false} DroppedPos(data: seq<Byte>, off: nat, pos: nat, k: nat)
    requires off <= pos && off <= |data|
    ensures PosAt(data[off..], pos - off, k) + off == PosAt(data, pos, k)
    decreases k
  {
    DroppedMore(data, off, pos);
    if k > 0 && More(data, pos) {
      DroppedPos(data, off, Next(data, pos), k - 1);
    }
  }

  lemma DroppedByteAt(data: seq<Byte>, off: nat, pos: nat, k: nat)
    requires off <= pos && off <= |data|
    ensures ByteAt(data[off..], pos - off, k) == ByteAt(data, pos, k)
  {
    DroppedBytes(data, off, pos);
    DroppedPos(data, off, pos, |Bytes(data, pos)|);
    hide Bytes, PosAt;
  }

  lemma DroppedAhead(data: seq<Byte>, off: nat, pos: nat, c: nat, end: nat)
    requires off <= pos && off <= |data| && c <= end
    ensures Ahead(data[off..], pos - off, c, end) == Ahead(data, pos, c, end)
  {
    hide ByteAt;
    var s, t := Ahead(data[off..], pos - off, c, end), Ahead(data, pos, c, end);
    forall i | 0 <= i < end - c
      ensures s[i] == t[i]
    {
      DroppedByteAt(data, off, pos, (c + i) / 8);
      assert s[i] == Bit(data[off..], pos - off, c + i) && t[i] == Bit(data, pos, c + i);
    }
  }

  /** A position in the input from byte off on. */
  function Moved(p: Position, off: nat): Position
    requires off <= p.pos
  {
    p.(pos := p.pos - off)
  }

  function MovedStep(s: Step, off: nat): Step
    requires s != Stuck ==> off <= s.next.pos
  {
    match s
    case Stuck => Stuck
    case Decoded(blocks, next) => Decoded(blocks, Moved(next, off))
    case Restarted(next) => Restarted(Moved(next, off))
  }

  lemma DroppedAt(scan: Scan, data: seq<Byte>, p: Position, off: nat)
    requires At(scan, data, p) && off <= p.pos
    ensures At(scan, data[off..], Moved(p, off))
  {
    DroppedMore(data, off, p.pos);
  }

  lemma DroppedOutcome(scan: Scan, data: seq<Byte>, p: Position, off: nat, d: Decoded<Mcu>)
    requires off <= p.pos <= |data|
    ensures StepOf(scan, data, p, d) != Stuck ==> StepOf(scan, data, p, d).next.pos >= p.pos
    ensures StepOf(scan, data[off..], Moved(p, off), d) == MovedStep(StepOf(scan, data, p, d), off)
  {
    assert EndOfMcu(scan, Moved(p, off)) == EndOfMcu(scan, p);
    DroppedBytes(data, off, p.pos);
    hide PosAt, Bytes, EndOfMcu;
    if d.Got? && |d.rest| <= EndOfMcu(scan, p) {
      var k := (EndOfMcu(scan, p) - |d.rest|) / 8;
      DroppedPos(data, off, p.pos, k);
      PosMono(data, p.pos, k, 0);
      PosStarts(data, p.pos);
    }
  }

  lemma DroppedMcu(scan: Scan, data: seq<Byte>, p: Position, off: nat)
    requires At(scan, data, p) && off <= p.pos && At(scan, data[off..], Moved(p, off))
    ensures McuStep(scan, data, p) != Stuck ==> McuStep(scan, data, p).next.pos >= p.pos
    ensures McuStep(scan, data[off..], Moved(p, off)) == MovedStep(McuStep(scan, data, p), off)
  {
    hide StepOf, DecodeMcu, Ahead;
    assert EndOfMcu(scan, Moved(p, off)) == EndOfMcu(scan, p);
    EnoughForMcu(scan, p);
    DroppedAhead(data, off, p.pos, p.bitPos, EndOfMcu(scan, p));
    DroppedOutcome(scan, data, p, off, DecodeMcu(scan.kinds, p.lastDc, Ahead(data, p.pos, p.bitPos, EndOfMcu(scan, p))));
  }

  lemma PosStarts(data: seq<Byte>, pos: nat)
    ensures PosAt(data, pos, 0) == pos
  {
  }

  lemma {:induction false} DroppedMarker(data: seq<Byte>, off: nat, q: nat)
    requires off <= q <= |data|
    ensures FindMarker(data[off..], q - off) + off == FindMarker(data, q)
    decreases |data| - q
  {
    if q + 1 < |data| {
      assert CodeAfter(data[off..], q - off) <==> CodeAfter(data, q);
      if !CodeAfter(data, q) {
        DroppedMarker(data, off, q + 1);
      }
    }
  }

  lemma DroppedStep(scan: Scan, data: seq<Byte>, p: Position, off: nat)
    requires At(scan, data, p) && off <= p.pos && At(scan, data[off..], Moved(p, off))
    ensures StepAt(scan, data, p) != Stuck ==> StepAt(scan, data, p).next.pos >= p.pos
    ensures StepAt(scan, data[off..], Moved(p, off)) == MovedStep(StepAt(scan, data, p), off)
  {
    if scan.interval > 0 && p.toGo == 0 {
      DroppedMore(data, off, p.pos);
      DroppedMarker(data, off, SkipPartial(data, p));
    } else {
      hide McuStep;
      DroppedMcu(scan, data, p, off);
    }
  }

  /** A run over the rest of the input is the run over all of it. */
  lemma {:induction false} DroppedRun(scan: Scan, data: seq<Byte>, p: Position, off: nat, n: nat)
    requires At(scan, data, p) && off <= p.pos && At(scan, data[off..], Moved(p, off))
    ensures McuRun(scan, data, p, n).1.pos >= p.pos
    ensures McuRun(scan, data[off..], Moved(p, off), n) == (McuRun(scan, data, p, n).0, Moved(McuRun(scan, data, p, n).1, off))
    decreases n, |data| - p.pos
  {
    hide StepAt;
    if n > 0 {
      DroppedStep(scan, data, p, off);
      var step := StepAt(scan, data, p);
      if step != Stuck {
        StepIsAt(scan, data, p);
        DroppedAt(scan, data, step.next, off);
        DroppedRun(scan, data, step.next, off, if step.Decoded? then n - 1 else n);
      }
    }
  }
}
