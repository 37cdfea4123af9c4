/** Waiting for input is needed: an MCU that a longer input has, and that ends before the last two bytes of a shorter
    one, is in the shorter one too (lib/jpegli/decode_scan.cc). */
module ScanWaiting {
  import opened Arithmetic
  import opened BitStrings
  import opened EntropyStream
  import opened BlockDecoding
  import opened PredictedBlocks
  import opened BlockReader
  import opened SuspendedReading
  import opened McuStability
  import opened McuPrefix
  import opened ScanSteps

  lemma {:induction false} SamePositionBack(data: seq<Byte>, more: seq<Byte>, pos: nat, k: nat)
    requires data <= more && PosAt(more, pos, k) + 2 <= |data|
    ensures PosAt(data, pos, k) == PosAt(more, pos, k)
    ensures k <= |Bytes(more, pos)| ==> k <= |Bytes(data, pos)|
    ensures k < |Bytes(more, pos)| ==> k < |Bytes(data, pos)|
    decreases k
  {
    PosNotBelow(more, pos, k);
    assert More(data, pos) <==> More(more, pos);
    if More(more, pos) {
      assert Next(data, pos) == Next(more, pos);
      if k > 0 {
        SamePositionBack(data, more, Next(more, pos), k - 1);
      }
    }
  }

  lemma McuStepEndsAt(scan: Scan, data: seq<Byte>, p: Position, c: nat)
    requires At(scan, data, p) && McuStep(scan, data, p).Decoded?
    requires DecodeMcu(scan.kinds, p.lastDc, Ahead(data, p.pos, p.bitPos, EndOfMcu(scan, p))).Got?
    requires c == EndOfMcu(scan, p) - |DecodeMcu(scan.kinds, p.lastDc, Ahead(data, p.pos, p.bitPos, EndOfMcu(scan, p))).rest|
    ensures c >= 0 ==> McuStep(scan, data, p).next.pos == PosAt(data, p.pos, c / 8)
  {
    hide DecodeMcu, Ahead, PosAt, Bytes, EndOfMcu;
  }

  lemma AheadAgrees(data: seq<Byte>, more: seq<Byte>, start: nat, c: nat, last: nat, end: nat)
    requires data <= more && start <= |data| && c <= last <= end && PosAt(data, start, last / 8) + 2 <= |data|
    ensures Agree(Ahead(more, start, c, end), Ahead(data, start, c, end), end - last)
    ensures Last(Ahead(data, start, c, end), end - last) == Ahead(data, start, last, end)
    ensures Last(Ahead(more, start, c, end), end - last) == Ahead(more, start, last, end)
  {
    hide Bit, PosAt;
    StreamOfPrefix(data, more, start, c, last - c, last);
    StreamSlice(data, start, c, end - c, last - c);
    StreamSlice(more, start, c, end - c, last - c);
  }

  lemma McuStepWasThere(scan: Scan, data: seq<Byte>, more: seq<Byte>, p: Position)
    requires At(scan, data, p) && At(scan, more, p) && data <= more
    requires McuStep(scan, more, p).Decoded? && McuStep(scan, more, p).next.pos + 2 <= |data|
    ensures McuStep(scan, data, p) == McuStep(scan, more, p)
  {
    hide *;
    DecodedHasMcu(scan, more, p);
    var end := EndOfMcu(scan, p);
    var c := McuEnds(scan, more, p);
    McuStepEndsAt(scan, more, p, c);
    SamePositionBack(data, more, p.pos, c / 8);
    AtIsSupported(scan, data, p);
    var bits, bits2 := Ahead(more, p.pos, p.bitPos, end), Ahead(data, p.pos, p.bitPos, end);
    AheadAgrees(data, more, p.pos, p.bitPos, c, end);
    McuPrefix.McuPrefix(scan.kinds, p.lastDc, bits, bits2, end - c);
    SameMeans(DecodeMcu(scan.kinds, p.lastDc, bits), bits, DecodeMcu(scan.kinds, p.lastDc, bits2), bits2);
    var mcu := DecodeMcu(scan.kinds, p.lastDc, bits).value;
    McuStepIs(scan, more, p, mcu, c);
    McuStepIs(scan, data, p, mcu, c);
  }

  lemma SameMeans<T>(d: Decoded<T>, bits: Bits, e: Decoded<T>, bits2: Bits)
    requires Same(d, bits, e, bits2)
    ensures |d.rest| <= |bits| && |d.rest| <= |bits2| && d.rest == Last(bits, |d.rest|) && e == Got(d.value, Last(bits2, |d.rest|))
  {
  }
}
