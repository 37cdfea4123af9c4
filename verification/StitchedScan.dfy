/**
 Decoding a scan through the stitching of its input (ConsumeInput in lib/jpegli/decode.cc with ProcessScan in
 lib/jpegli/decode_scan.cc): the decoder for scans keeps the contract of a processor, and whatever the source does, the
 MCUs that are delivered are those of all bytes that were received.
 */
module StitchedScan {
  import opened Arithmetic
  import opened BlockSymbols
  import opened BlockDecoding
  import opened ScanSteps
  import opened ScanWindows
  import opened ScanDecoding
  import opened ScanWaiting
  import opened ScanProcessing
  import opened ChunkedScan
  import opened InputStitching

  /** The number of MCUs of an iMCU row, and of the scan. */
  datatype Layout = Layout(rowMcus: nat, total: nat)
  {
    predicate Valid() {
      rowMcus > 0 && total > 0
    }

    /** The MCUs that are left of the current row. */
    function LeftOfRow(done: nat): (k: nat)
      requires Valid() && done < total
      ensures 0 < k <= total - done
    {
      Min(rowMcus - done % rowMcus, total - done)
    }
  }

  /** A call for the scan; when the scan is over, there is nothing left to do. */
  ghost predicate Serves(scan: Scan, layout: Layout, s: ScanState, call: Call, t: ScanState)
    requires layout.Valid()
  {
    if s.over then call.result == Processed(ScanCompleted, 0, call.unread) && t == s
    else
      |s.mcus| < layout.total && At(scan, call.data, s.at) ==>
        var k := layout.LeftOfRow(|s.mcus|);
        && s.mcus <= t.mcus && (t.over <==> call.result.status.ScanCompleted? || call.result.status.Failed?)
        && Processes(scan, call.data, s.at, k, k == layout.total - |s.mcus|, call.unread, t.mcus[|s.mcus|..], call.result, t.at)
  }

  /** The processor p decodes the scan: each call is one of ProcessScan, from the state that the calls before have left. */
  ghost predicate DecodesScan(scan: Scan, layout: Layout, p: Processor, out: seq<Call> -> ScanState) {
    && scan.Valid() && layout.Valid() && ConsumesWindow(p) && out([]) == FirstState(scan)
    && forall calls :: calls != [] && MadeBy(p, calls) ==>
         Serves(scan, layout, out(calls[..|calls| - 1]), calls[|calls| - 1], out(calls))
  }

  lemma Served(scan: Scan, layout: Layout, p: Processor, out: seq<Call> -> ScanState, calls: seq<Call>)
    requires DecodesScan(scan, layout, p, out) && calls != [] && MadeBy(p, calls)
    ensures var last := |calls| - 1;
            Serves(scan, layout, out(calls[..last]), calls[last], out(calls)) && MadeBy(p, calls[..last]) && CallOf(p, calls[..last], calls[last])
  {
    hide Serves, CallOf;
  }

  function EndOfWindows(calls: seq<Call>): nat {
    if calls == [] then 0 else calls[|calls| - 1].WindowEnd()
  }

  /** All calls but the last one, and the window of the last one. */
  lemma LastCall(p: Processor, calls: seq<Call>, received: seq<Byte>, consumed: nat)
    requires Contiguous(calls, received, consumed) && calls != [] && MadeBy(p, calls)
    ensures var last := calls[|calls| - 1];
            && Contiguous(calls[..|calls| - 1], received, last.start) && consumed == last.start + last.used
            && EndOfWindows(calls[..|calls| - 1]) <= last.WindowEnd() == EndOfWindows(calls) <= |received|
            && last.data == received[last.start..last.WindowEnd()] == received[..last.WindowEnd()][last.start..]
  {
    var last := |calls| - 1;
    CallMadeBy(p, calls, last);
    InStream(calls, received, consumed, last);
    FirstCalls(calls, received, consumed);
    hide Contiguous, MadeBy;
    assert received[..calls[last].WindowEnd()][calls[last].start..] == received[calls[last].start..calls[last].WindowEnd()];
  }

  lemma FirstCalls(calls: seq<Call>, received: seq<Byte>, consumed: nat)
    requires Contiguous(calls, received, consumed) && calls != []
    ensures var last := calls[|calls| - 1];
            Contiguous(calls[..|calls| - 1], received, last.start) && consumed == last.start + last.used
  {
    var before := calls[..|calls| - 1];
    assert forall i :: 0 <= i < |before| ==> before[i] == calls[i];
  }

  // ---------------------------------------------------------------- what is delivered

  /** Where decoding goes on fits the rest of the window. */
  lemma NextIsAt(scan: Scan, data: seq<Byte>, p: Position, k: nat, last: bool, unread: Byte,
                 mcus: seq<seq<Block>>, r: Processed, next: Position)
    requires At(scan, data, p) && Processes(scan, data, p, k, last, unread, mcus, r, next)
    requires !r.status.ScanCompleted? && !r.status.Failed?
    ensures r.read <= |data| && next.pos == 0 && At(scan, data[r.read..], next) && |mcus| <= k && (|mcus| == k ==> !last)
  {
    MoreToDeliver(scan, data, p, k, last, unread, mcus, r, next);
    if GoesOn(r, p.marker) {
      CallDelivers(scan, data, p, k, k, last, unread, mcus, r, next);
      BehindMoved(next, r.read);
      DroppedAt(scan, data, Behind(next, r.read), r.read);
    } else {
      hide NextMcus, StepAt;
      assert r.status.HandleRestart? && |mcus| < k;
    }
  }

  /** The state after the calls fits what has not been consumed. */
  ghost predicate Fits(scan: Scan, layout: Layout, received: seq<Byte>, consumed: nat, end: nat, s: ScanState) {
    consumed <= end <= |received| &&
    (s.over || (|s.mcus| < layout.total && s.at.pos == 0 && At(scan, received[consumed..end], s.at)))
  }

  lemma FitsLonger(scan: Scan, layout: Layout, received: seq<Byte>, consumed: nat, end: nat, later: nat, s: ScanState)
    requires Fits(scan, layout, received, consumed, end, s) && end <= later <= |received|
    ensures Fits(scan, layout, received, consumed, later, s)
  {
    if !s.over {
      assert received[consumed..end] <= received[consumed..later];
      AtStays(scan, received[consumed..end], received[consumed..later], s.at);
    }
  }

  lemma FitsAfter(scan: Scan, layout: Layout, received: seq<Byte>, s: ScanState, call: Call, t: ScanState)
    requires layout.Valid() && Serves(scan, layout, s, call, t) && call.WindowEnd() <= |received|
    requires call.data == received[call.start..call.WindowEnd()] && Fits(scan, layout, received, call.start, call.WindowEnd(), s)
    requires call.result.read <= |call.data|
    ensures Fits(scan, layout, received, call.start + call.result.read, call.WindowEnd(), t)
  {
    hide Processes;
    if !s.over && !t.over {
      var k := layout.LeftOfRow(|s.mcus|);
      NextIsAt(scan, call.data, s.at, k, k == layout.total - |s.mcus|, call.unread, t.mcus[|s.mcus|..], call.result, t.at);
      assert call.data[call.result.read..] == received[call.start + call.result.read..call.WindowEnd()];
      assert t.mcus == s.mcus + t.mcus[|s.mcus|..];
    }
  }

  lemma NoMarkerProcessor(scan: Scan, layout: Layout, received: seq<Byte>, s: ScanState, call: Call, t: ScanState)
    requires layout.Valid() && Serves(scan, layout, s, call, t) && call.WindowEnd() <= |received|
    requires call.data == received[call.start..call.WindowEnd()] && Fits(scan, layout, received, call.start, call.WindowEnd(), s)
    ensures !call.result.status.HandleMarkerProcessor? && !call.result.status.Suspended?
  {
    hide NextMcus, StepAt;
  }

  /** Before and after the last call. */
  lemma {:induction false} StateFits(scan: Scan, layout: Layout, p: Processor, out: seq<Call> -> ScanState,
                                     calls: seq<Call>, received: seq<Byte>, consumed: nat)
    requires DecodesScan(scan, layout, p, out) && Contiguous(calls, received, consumed) && MadeBy(p, calls)
    ensures Fits(scan, layout, received, consumed, EndOfWindows(calls), out(calls))
    ensures calls != [] ==>
      var last := |calls| - 1;
      && Fits(scan, layout, received, calls[last].start, calls[last].WindowEnd(), out(calls[..last]))
      && Serves(scan, layout, out(calls[..last]), calls[last], out(calls))
      && calls[last].used == calls[last].result.read <= |calls[last].data|
      && !calls[last].result.status.HandleMarkerProcessor? && !calls[last].result.status.Suspended?
    decreases |calls|
  {
    hide Serves, MadeBy, Contiguous, Fits, ConsumesWindow;
    if calls == [] {
      StartFits(scan, layout, p, out, received);
      assert consumed == 0 by { NothingCalled(calls, received, consumed); }
    } else {
      var last := calls[|calls| - 1];
      LastCall(p, calls, received, consumed);
      Served(scan, layout, p, out, calls);
      StateFits(scan, layout, p, out, calls[..|calls| - 1], received, last.start);
      var s := out(calls[..|calls| - 1]);
      FitsLonger(scan, layout, received, last.start, EndOfWindows(calls[..|calls| - 1]), last.WindowEnd(), s);
      NoMarkerProcessor(scan, layout, received, s, last, out(calls));
      SoundCall(scan, layout, p, out, calls);
      FitsAfter(scan, layout, received, s, last, out(calls));
    }
  }

  lemma NothingCalled(calls: seq<Call>, received: seq<Byte>, consumed: nat)
    requires Contiguous(calls, received, consumed) && calls == []
    ensures consumed == 0
  {
  }

  lemma SoundCall(scan: Scan, layout: Layout, p: Processor, out: seq<Call> -> ScanState, calls: seq<Call>)
    requires DecodesScan(scan, layout, p, out) && MadeBy(p, calls) && calls != []
    ensures var last := calls[|calls| - 1]; Sound(last.unread, last.data, last.result)
  {
    CallMadeBy(p, calls, |calls| - 1);
    hide MadeBy, Serves;
  }

  lemma StartFits(scan: Scan, layout: Layout, p: Processor, out: seq<Call> -> ScanState, received: seq<Byte>)
    requires DecodesScan(scan, layout, p, out)
    ensures Fits(scan, layout, received, 0, 0, out([]))
  {
    hide MadeBy, Serves;
  }

  /** An unexpected restart marker ends the scan. */
  function Judged(calls: seq<Call>, s: ScanState): ScanState {
    s.(over := s.over || !Expected(calls))
  }

  lemma MarkerAfter(scan: Scan, data: seq<Byte>, p: Position, k: nat, last: bool, unread: Byte,
                    mcus: seq<seq<Block>>, r: Processed, next: Position)
    requires At(scan, data, p) && Processes(scan, data, p, k, last, unread, mcus, r, next)
    requires !r.status.ScanCompleted? && !r.status.Failed?
    ensures next.marker == if r.status.HandleRestart? then (p.marker + 1) % 8 else p.marker
  {
    hide NextMcus, StepAt;
    NextContinues(scan, data, p, |mcus|, |mcus|);
  }

  /** What the last call makes of the state. */
  lemma JudgedAfter(scan: Scan, layout: Layout, received: seq<Byte>, before: seq<Call>, s: ScanState, call: Call, t: ScanState)
    requires layout.Valid() && Serves(scan, layout, s, call, t) && call.WindowEnd() <= |received| && call.result.read <= |call.data|
    requires call.data == received[call.start..call.WindowEnd()] == received[..call.WindowEnd()][call.start..]
    requires Fits(scan, layout, received, call.start, call.WindowEnd(), s)
    requires Delivered(scan, layout.total, received[..call.WindowEnd()], call.start, s)
    requires Expected(before) && (!s.over ==> s.at.marker == Restarts(before) % 8)
    ensures Delivered(scan, layout.total, received[..call.WindowEnd()], call.start + call.result.read, Judged(before + [call], t))
    ensures Expected(before + [call]) && !t.over ==> t.at.marker == Restarts(before + [call]) % 8
    ensures call.result.status.NeedMoreInput? ==>
      var stream := received[..call.WindowEnd()];
      At(scan, stream, Beginning(scan)) && McuRun(scan, stream, Beginning(scan), layout.total).0 == t.mcus
  {
    hide Processes, Expected, Restarts, Needs, McuRun, At;
    OneMoreCall(before, call);
    if s.over {
      hide Delivered;
      assert Judged(before + [call], t) == s;
    } else {
      OneMoreDelivered(scan, layout, received, before, s, call, t);
    }
  }

  lemma ServesParts(scan: Scan, layout: Layout, received: seq<Byte>, s: ScanState, call: Call, t: ScanState)
    requires layout.Valid() && Serves(scan, layout, s, call, t) && call.WindowEnd() <= |received| && !s.over
    requires call.data == received[call.start..call.WindowEnd()] && Fits(scan, layout, received, call.start, call.WindowEnd(), s)
    ensures |s.mcus| < layout.total && At(scan, call.data, s.at) && s.mcus <= t.mcus
    ensures t.over <==> call.result.status.ScanCompleted? || call.result.status.Failed?
    ensures var k := layout.LeftOfRow(|s.mcus|);
            Processes(scan, call.data, s.at, k, k == layout.total - |s.mcus|, call.unread, t.mcus[|s.mcus|..], call.result, t.at)
  {
    hide Processes;
  }

  lemma OneMoreDelivered(scan: Scan, layout: Layout, received: seq<Byte>, before: seq<Call>, s: ScanState, call: Call, t: ScanState)
    requires layout.Valid() && Serves(scan, layout, s, call, t) && call.WindowEnd() <= |received| && call.result.read <= |call.data|
    requires call.data == received[call.start..call.WindowEnd()] == received[..call.WindowEnd()][call.start..]
    requires Fits(scan, layout, received, call.start, call.WindowEnd(), s) && !s.over
    requires Delivered(scan, layout.total, received[..call.WindowEnd()], call.start, s)
    requires Expected(before) && s.at.marker == Restarts(before) % 8
    ensures Delivered(scan, layout.total, received[..call.WindowEnd()], call.start + call.result.read, Judged(before + [call], t))
    ensures Expected(before + [call]) && !t.over ==> t.at.marker == Restarts(before + [call]) % 8
    ensures call.result.status.NeedMoreInput? ==>
      var stream := received[..call.WindowEnd()];
      At(scan, stream, Beginning(scan)) && McuRun(scan, stream, Beginning(scan), layout.total).0 == t.mcus
  {
    hide Processes, Expected, Restarts, Needs, McuRun, At, Delivered, Serves, Fits, Beginning;
    OneMoreCall(before, call);
    ServesParts(scan, layout, received, s, call, t);
    var k, part := layout.LeftOfRow(|s.mcus|), t.mcus[|s.mcus|..];
    var n := layout.total - |s.mcus|;
    DeliveredByCall(scan, layout.total, received[..call.WindowEnd()], call.start, s, k, call.unread, part, call.result, t.at);
    assert t.mcus == s.mcus + part;
    ScanStatus(scan, call.data, s.at, k, k == n, call.unread, part, call.result, t.at);
    if !t.over {
      MarkerAfter(scan, call.data, s.at, k, k == n, call.unread, part, call.result, t.at);
    }
    assert Judged(before + [call], t) == ScanState(s.mcus + part, t.at, !GoesOn(call.result, s.at.marker));
  }

  lemma ScanStatus(scan: Scan, data: seq<Byte>, p: Position, k: nat, last: bool, unread: Byte,
                   mcus: seq<seq<Block>>, r: Processed, next: Position)
    requires At(scan, data, p) && Processes(scan, data, p, k, last, unread, mcus, r, next)
    ensures r.status.NeedMoreInput? || r.status.HandleRestart? || r.status.RowCompleted? || r.status.ScanCompleted? || r.status.Failed?
  {
    hide NextMcus, StepAt;
  }

  /** However the stream was divided into windows, the calls have delivered the first MCUs of it, and all that the windows
      hold if the last call needed more input. */
  lemma {:induction false} TraceDelivers(scan: Scan, layout: Layout, p: Processor, out: seq<Call> -> ScanState,
                                         calls: seq<Call>, received: seq<Byte>, consumed: nat)
    requires DecodesScan(scan, layout, p, out) && Contiguous(calls, received, consumed) && MadeBy(p, calls)
    requires calls == [] || Expected(calls[..|calls| - 1])
    ensures EndOfWindows(calls) <= |received|
    ensures Delivered(scan, layout.total, received[..EndOfWindows(calls)], consumed, Judged(calls, out(calls)))
    ensures Expected(calls) && !out(calls).over ==> out(calls).at.marker == Restarts(calls) % 8
    ensures calls != [] && calls[|calls| - 1].result.status.NeedMoreInput? ==>
      var stream := received[..EndOfWindows(calls)];
      At(scan, stream, Beginning(scan)) && McuRun(scan, stream, Beginning(scan), layout.total).0 == out(calls).mcus
    decreases |calls|
  {
    hide Serves, MadeBy, Contiguous, Fits, ConsumesWindow, Delivered, Restarts, McuRun, At;
    StateFits(scan, layout, p, out, calls, received, consumed);
    if calls == [] {
      StartDelivered(scan, layout, p, out, calls, received, consumed);
    } else {
      var before, last := calls[..|calls| - 1], calls[|calls| - 1];
      LastCall(p, calls, received, consumed);
      Served(scan, layout, p, out, calls);
      if before != [] {
        ExpectedPrefix(before);
      }
      TraceDelivers(scan, layout, p, out, before, received, last.start);
      assert received[..EndOfWindows(before)] <= received[..last.WindowEnd()];
      DeliveredLonger(scan, layout.total, received[..EndOfWindows(before)], received[..last.WindowEnd()], last.start, out(before));
      assert before + [last] == calls;
      JudgedAfter(scan, layout, received, before, out(before), last, out(calls));
    }
  }

  lemma ExpectedPrefix(calls: seq<Call>)
    requires Expected(calls) && calls != []
    ensures Expected(calls[..|calls| - 1])
  {
  }

  lemma StartDelivered(scan: Scan, layout: Layout, p: Processor, out: seq<Call> -> ScanState, calls: seq<Call>, received: seq<Byte>, consumed: nat)
    requires DecodesScan(scan, layout, p, out) && Contiguous(calls, received, consumed) && calls == []
    ensures Delivered(scan, layout.total, received[..EndOfWindows(calls)], consumed, Judged(calls, out(calls)))
    ensures out(calls).at.marker == Restarts(calls) % 8
  {
    hide MadeBy, Serves, Delivered;
    NothingDelivered(scan, layout.total);
    assert received[..0] == [];
  }

  // ---------------------------------------------------------------- the contract of processors

  /** After a call that needed more input for bytes up to `end`: decoding stands near their end, or still before the
      same MCU, which is not among them. */
  ghost predicate Beyond(scan: Scan, received: seq<Byte>, consumed: nat, end: nat, s: ScanState) {
    || s.over
    || consumed + 2 > end
    || (end <= |received| && s.at.pos == 0 && At(scan, received[consumed..end], s.at)
        && !RestartDue(scan, s.at) && McuStep(scan, received[consumed..end], s.at) == Stuck)
  }

  lemma StepForward(scan: Scan, data: seq<Byte>, p: Position)
    requires At(scan, data, p) && McuStep(scan, data, p).Decoded?
    ensures McuStep(scan, data, p).next.pos >= p.pos
  {
    hide McuStep;
    DroppedAt(scan, data, p, p.pos);
    DroppedMcu(scan, data, p, p.pos);
  }

  /** If there is an MCU now that was not there in a part of the window, it ends near the end of that part or later. */
  lemma {:induction false} EndsLater(scan: Scan, part: seq<Byte>, data: seq<Byte>, p: Position, k: nat)
    requires part <= data && At(scan, part, p) && At(scan, data, p) && McuStep(scan, part, p) == Stuck
    ensures var (mcus, q) := NextMcus(scan, data, p, k);
            (mcus == [] && q == p) || q.pos + 2 > |part|
  {
    hide McuStep;
    if k > 0 {
      EndsLater(scan, part, data, p, k - 1);
      var (mcus, q) := NextMcus(scan, data, p, k - 1);
      if |mcus| == k - 1 && !RestartDue(scan, q) && McuStep(scan, data, q).Decoded? {
        StepForward(scan, data, q);
        if q == p && McuStep(scan, data, p).next.pos + 2 <= |part| {
          McuStepWasThere(scan, part, data, p);
        }
      }
    }
  }

  /** What a call reads, by the place where it stops. */
  lemma ReadsAtLeast(scan: Scan, data: seq<Byte>, p: Position, k: nat, last: bool, unread: Byte,
                     mcus: seq<seq<Block>>, r: Processed, next: Position)
    requires At(scan, data, p) && Processes(scan, data, p, k, last, unread, mcus, r, next)
    requires !r.status.ScanCompleted? && !r.status.Failed? && k > 0
    ensures var q := NextMcus(scan, data, p, |mcus|).1;
      && q.pos + (if r.status.HandleRestart? then 2 else 0) <= r.read
      && (mcus == [] && !RestartDue(scan, q) ==> r.status.NeedMoreInput? && r.read == q.pos && next == FromStart(q))
  {
    hide NextMcus, StepAt, FindMarker;
  }

  lemma StaysBeyond(scan: Scan, layout: Layout, received: seq<Byte>, end: nat, s: ScanState, call: Call, t: ScanState)
    requires layout.Valid() && Serves(scan, layout, s, call, t) && end <= call.WindowEnd() <= |received|
    requires call.data == received[call.start..call.WindowEnd()] && Fits(scan, layout, received, call.start, call.WindowEnd(), s)
    requires Beyond(scan, received, call.start, end, s)
    ensures Beyond(scan, received, call.start + call.result.read, end, t)
    ensures call.result.AtMarker() ==> end <= call.start + call.result.read
  {
    hide McuStep, Processes, At, RestartDue;
    if !s.over {
      NoMarkerProcessor(scan, layout, received, s, call, t);
      var k, mcus := layout.LeftOfRow(|s.mcus|), t.mcus[|s.mcus|..];
      if !t.over {
        ReadsAtLeast(scan, call.data, s.at, k, k == layout.total - |s.mcus|, call.unread, mcus, call.result, t.at);
        if call.start + 2 <= end {
          var part := received[call.start..end];
          assert part <= call.data;
          EndsLater(scan, part, call.data, s.at, |mcus|);
          StaysEmpty(scan, call.data, s.at, k, k == layout.total - |s.mcus|, call.unread, mcus, call.result, t.at);
        }
      }
    }
  }

  lemma StaysEmpty(scan: Scan, data: seq<Byte>, p: Position, k: nat, last: bool, unread: Byte,
                   mcus: seq<seq<Block>>, r: Processed, next: Position)
    requires At(scan, data, p) && Processes(scan, data, p, k, last, unread, mcus, r, next)
    ensures NextMcus(scan, data, p, |mcus|).0 == mcus
  {
    hide NextMcus, StepAt, FindMarker;
  }

  lemma StartsBeyond(scan: Scan, layout: Layout, received: seq<Byte>, s: ScanState, call: Call, t: ScanState)
    requires layout.Valid() && Serves(scan, layout, s, call, t) && call.WindowEnd() <= |received|
    requires call.data == received[call.start..call.WindowEnd()] && Fits(scan, layout, received, call.start, call.WindowEnd(), s)
    requires call.result.status.NeedMoreInput? && call.result.read <= |call.data|
    ensures Beyond(scan, received, call.start + call.result.read, call.WindowEnd(), t)
  {
    hide Processes, At, McuStep;
    if !s.over {
      var k := layout.LeftOfRow(|s.mcus|);
      StopsNearEnd(scan, call.data, s.at, k, k == layout.total - |s.mcus|, call.unread, t.mcus[|s.mcus|..], call.result, t.at);
      assert call.data[call.result.read..] == received[call.start + call.result.read..call.WindowEnd()];
    }
  }

  /** A call that needs more input leaves fewer than two bytes, or the beginning of an MCU. */
  lemma StopsNearEnd(scan: Scan, data: seq<Byte>, p: Position, k: nat, last: bool, unread: Byte,
                     mcus: seq<seq<Block>>, r: Processed, next: Position)
    requires At(scan, data, p) && Processes(scan, data, p, k, last, unread, mcus, r, next) && r.status.NeedMoreInput?
    ensures r.read <= |data| && next.pos == 0
    ensures r.read + 2 > |data| || (At(scan, data[r.read..], next) && !RestartDue(scan, next) && McuStep(scan, data[r.read..], next) == Stuck)
  {
    hide NextMcus, McuStep, FindMarker, SkipPartial;
    var q := NextMcus(scan, data, p, |mcus|).1;
    if !RestartDue(scan, q) {
      DroppedAt(scan, data, q, q.pos);
      DroppedMcu(scan, data, q, q.pos);
    }
  }

  /** From a call that needed more input on. */
  lemma {:induction false} RemainsBeyond(scan: Scan, layout: Layout, p: Processor, out: seq<Call> -> ScanState,
                                         calls: seq<Call>, received: seq<Byte>, consumed: nat, i: nat)
    requires DecodesScan(scan, layout, p, out) && Contiguous(calls, received, consumed) && MadeBy(p, calls)
    requires i < |calls| && calls[i].result.status.NeedMoreInput?
    ensures Beyond(scan, received, consumed, calls[i].WindowEnd(), out(calls))
    ensures i + 1 < |calls| && calls[|calls| - 1].result.AtMarker() ==> calls[i].WindowEnd() <= consumed
    decreases |calls|
  {
    hide Serves, MadeBy, Contiguous, Fits, ConsumesWindow, Beyond;
    var before, last := calls[..|calls| - 1], calls[|calls| - 1];
    StateFits(scan, layout, p, out, calls, received, consumed);
    LastCall(p, calls, received, consumed);
    WindowsGrow(p, calls, i, |calls| - 1);
    if i + 1 == |calls| {
      StartsBeyond(scan, layout, received, out(before), last, out(calls));
    } else {
      CallMadeBy(p, calls, |calls| - 1);
      assert before[i] == calls[i];
      RemainsBeyond(scan, layout, p, out, before, received, last.start, i);
      StaysBeyond(scan, layout, received, calls[i].WindowEnd(), out(before), last, out(calls));
    }
  }

  /** The decoder for scans is a lawful processor: after it has needed more input than a window, it stops at a restart
      marker only at the end of that window or later. */
  lemma ScanProcessorObeys(scan: Scan, layout: Layout, p: Processor, out: seq<Call> -> ScanState)
    requires DecodesScan(scan, layout, p, out)
    ensures ProcessorObeys(p)
  {
    hide MadeBy, Contiguous, Serves;
    forall calls: seq<Call>, received: seq<Byte>, consumed: nat, i, j |
      Contiguous(calls, received, consumed) && MadeBy(p, calls)
      && 0 <= i < j < |calls| && calls[i].result.status.NeedMoreInput? && calls[j].result.AtMarker()
      ensures calls[i].WindowEnd() <= calls[j].start + calls[j].result.read
    {
      var some := calls[..j + 1];
      PrefixOfTrace(p, calls, received, consumed, j);
      StateFits(scan, layout, p, out, some, received, calls[j].start + calls[j].used);
      RemainsBeyond(scan, layout, p, out, some, received, calls[j].start + calls[j].used, i);
    }
  }

  lemma PrefixOfTrace(p: Processor, calls: seq<Call>, received: seq<Byte>, consumed: nat, j: nat)
    requires Contiguous(calls, received, consumed) && MadeBy(p, calls) && j < |calls|
    ensures var some := calls[..j + 1];
            && some[j] == calls[j] && MadeBy(p, some) && Contiguous(some, received, calls[j].start + calls[j].used)
  {
    if j + 1 < |calls| {
      CallMadeBy(p, calls, j + 1);
      hide MadeBy;
      SomeOfStream(calls, received, consumed, j);
    } else {
      assert calls[..j + 1] == calls;
      InStream(calls, received, consumed, j);
      FirstCalls(calls, received, consumed);
    }
  }

  lemma SomeOfStream(calls: seq<Call>, received: seq<Byte>, consumed: nat, j: nat)
    requires Contiguous(calls, received, consumed) && j < |calls|
    ensures Contiguous(calls[..j + 1], received, calls[j].start + calls[j].used)
  {
    var some := calls[..j + 1];
    assert forall i :: 0 <= i < |some| ==> some[i] == calls[i];
  }

  // ---------------------------------------------------------------- the whole scan

  /** The MCUs that were delivered are all MCUs of these bytes. */
  ghost predicate AllDelivered(scan: Scan, layout: Layout, received: seq<Byte>, mcus: seq<seq<Block>>) {
    At(scan, received, Beginning(scan)) && McuRun(scan, received, Beginning(scan), layout.total).0 == mcus
  }

  /** A call of ConsumeInput that does not end with a row has delivered all MCUs, also those of a longer input if it
      did not stop because more was needed. */
  lemma AllWhenStopped(scan: Scan, layout: Layout, d: Decoder, out: seq<Call> -> ScanState, r: Outcome, whole: seq<Byte>)
    requires DecodesScan(scan, layout, d.process, out) && d.Traced() && d.Explains(r)
    requires if d.AtNeed() then whole == d.received else d.received <= whole
    requires if r == Returned(ScanCompleted) && d.AtRestart() then d.OutOfStep() else d.InStep() && r != Returned(RowCompleted)
    ensures AllDelivered(scan, layout, whole, out(d.calls).mcus)
  {
    hide Contiguous, MadeBy, Delivered, Serves, Processes, ConsumesWindow, Fits, McuRun, At;
    StateFits(scan, layout, d.process, out, d.calls, d.received, d.consumed);
    var last := d.calls[|d.calls| - 1];
    LastCall(d.process, d.calls, d.received, d.consumed);
    TraceDelivers(scan, layout, d.process, out, d.calls, d.received, d.consumed);
    assert d.received[..EndOfWindows(d.calls)] == d.received;
    if !last.result.status.NeedMoreInput? {
      OverWhenStopped(scan, layout, d.received, out(d.calls[..|d.calls| - 1]), last, out(d.calls), d.calls);
      DeliveredLonger(scan, layout.total, d.received, whole, d.consumed, Judged(d.calls, out(d.calls)));
      DeliveredAt(scan, layout.total, whole, d.consumed, Judged(d.calls, out(d.calls)));
    }
  }

  lemma OverWhenStopped(scan: Scan, layout: Layout, received: seq<Byte>, s: ScanState, call: Call, t: ScanState, calls: seq<Call>)
    requires layout.Valid() && Serves(scan, layout, s, call, t) && call.WindowEnd() <= |received|
    requires call.data == received[call.start..call.WindowEnd()] && Fits(scan, layout, received, call.start, call.WindowEnd(), s)
    requires !call.result.status.NeedMoreInput? && !call.result.status.RowCompleted?
    requires call.result.status.HandleRestart? ==> !Expected(calls)
    ensures Judged(calls, t).over
  {
    hide Processes, Expected;
    if !s.over {
      var k := layout.LeftOfRow(|s.mcus|);
      ScanStatus(scan, call.data, s.at, k, k == layout.total - |s.mcus|, call.unread, t.mcus[|s.mcus|..], call.result, t.at);
    }
  }

  lemma {:induction false} MoreCallsMore(scan: Scan, layout: Layout, p: Processor, out: seq<Call> -> ScanState,
                                         calls: seq<Call>, received: seq<Byte>, consumed: nat, some: seq<Call>)
    requires DecodesScan(scan, layout, p, out) && Contiguous(calls, received, consumed) && MadeBy(p, calls) && some <= calls
    ensures |out(some).mcus| <= |out(calls).mcus|
    decreases |calls|
  {
    hide MadeBy, Contiguous, ConsumesWindow, At, Processes;
    if some != calls {
      var before := calls[..|calls| - 1];
      LastCall(p, calls, received, consumed);
      StateFits(scan, layout, p, out, calls, received, consumed);
      CallMadeBy(p, calls, |calls| - 1);
      MoreCallsMore(scan, layout, p, out, before, received, calls[|calls| - 1].start, some);
    }
  }

  /** A row adds MCUs. */
  lemma RowAdds(scan: Scan, layout: Layout, d: Decoder, out: seq<Call> -> ScanState, before: seq<Call>)
    requires DecodesScan(scan, layout, d.process, out) && d.Traced() && d.Explains(Returned(RowCompleted)) && before < d.calls
    ensures |out(before).mcus| < |out(d.calls).mcus| < layout.total && !d.AtNeed()
  {
    hide Contiguous, MadeBy, Serves, Fits, CallOf, ConsumesWindow, Decoder.ParserFailed;
    var some, last := d.calls[..|d.calls| - 1], d.calls[|d.calls| - 1];
    StateFits(scan, layout, d.process, out, d.calls, d.received, d.consumed);
    LastCall(d.process, d.calls, d.received, d.consumed);
    CallMadeBy(d.process, d.calls, |d.calls| - 1);
    MoreCallsMore(scan, layout, d.process, out, some, d.received, last.start, before);
    RowCallAdds(scan, layout, d.received, out(some), last, out(d.calls));
  }

  lemma RowCallAdds(scan: Scan, layout: Layout, received: seq<Byte>, s: ScanState, call: Call, t: ScanState)
    requires layout.Valid() && Serves(scan, layout, s, call, t) && call.WindowEnd() <= |received|
    requires call.data == received[call.start..call.WindowEnd()] && Fits(scan, layout, received, call.start, call.WindowEnd(), s)
    requires call.result.status.RowCompleted?
    ensures |s.mcus| < |t.mcus| < layout.total
  {
    hide Processes, At;
    assert !s.over;
    ServesParts(scan, layout, received, s, call, t);
    var k := layout.LeftOfRow(|s.mcus|);
    MoreToDeliver(scan, call.data, s.at, k, k == layout.total - |s.mcus|, call.unread, t.mcus[|s.mcus|..], call.result, t.at);
  }

  /** An application that reads a scan row by row, from a source that refills and refuses as it likes: when the rows end,
      every MCU of the bytes that were received has been delivered, and nothing else. These are also the MCUs of all that
      the source delivers until it fails to, since it is asked whenever more input is needed. */
  method ReadScan(d: Decoder, ghost scan: Scan, ghost layout: Layout, ghost out: seq<Call> -> ScanState)
    returns (r: Outcome, ghost lost: nat, ghost asked: seq<Answer>)
    requires d.Valid() && d.calls == [] && d.InStep() && DecodesScan(scan, layout, d.process, out)
    modifies d
    ensures r != Returned(RowCompleted) && d.Explains(r) && AllDelivered(scan, layout, d.received, out(d.calls).mcus)
    ensures AllDelivered(scan, layout, old(d.Input()), out(d.calls).mcus)
    ensures Supplied(d.refills, old(d.Taken()), asked, d.Taken(), d.AtNeed()) && d.Asked(r, asked)
    ensures old(d.AlwaysRefills()) ==> r != Returned(Suspended)
    ensures lost > 0 ==> r == Returned(Suspended) && d.delivered && !old(d.AlwaysRefills())
    ensures r == Returned(Failed) ==> lost == 0
  {
    hide DecodesScan, Contiguous, MadeBy, AllDelivered, Supplied, PassedOver, NeverRefuses, Needs, Supply, Decoder.ParserFailed,
      Decoder.Valid, Decoder.Traced, Decoder.Explains, Decoder.InStep, Decoder.OutOfStep;
    r, lost, asked := d.ConsumeInput(false);
    while r == Returned(RowCompleted)
      invariant d.calls != [] && d.Traced() && d.Explains(r) && (r.Returned? ==> (d.Valid() <==> lost == 0))
      invariant lost > 0 ==> r == Returned(Suspended) && d.delivered && !old(d.AlwaysRefills())
      invariant old(d.AlwaysRefills()) ==> d.AlwaysRefills()
      invariant Supplied(d.refills, old(d.Taken()), asked, d.Taken(), d.AtNeed()) && d.Asked(r, asked)
      invariant old(d.AlwaysRefills()) && r == Returned(Suspended) ==>
        var status := d.calls[|d.calls| - 1].result.status; status.Suspended? || status.HandleMarkerProcessor?
      invariant if r == Returned(ScanCompleted) && d.AtRestart() then d.OutOfStep() else d.InStep()
      decreases r == Returned(RowCompleted), layout.total - |out(d.calls).mcus|
    {
      RowAdds(scan, layout, d, out, []);
      ghost var before, between := d.calls, d.Taken();
      ghost var more;
      r, lost, more := d.ConsumeInput(false);
      SuppliedAgain(d.refills, old(d.Taken()), asked, between, more, d.Taken(), d.AtNeed());
      asked := asked + more;
      if r == Returned(RowCompleted) {
        RowAdds(scan, layout, d, out, before);
      }
    }
    NeverSuspended(scan, layout, d, out);
    SupplyIsKept(d.refills, old(d.Taken()), asked, d.Taken(), d.AtNeed());
    AllWhenStopped(scan, layout, d, out, r, d.received);
    AllWhenStopped(scan, layout, d, out, r, old(d.Input()));
  }

  lemma NeverSuspended(scan: Scan, layout: Layout, d: Decoder, out: seq<Call> -> ScanState)
    requires DecodesScan(scan, layout, d.process, out) && d.Traced() && d.calls != []
    ensures var status := d.calls[|d.calls| - 1].result.status; !status.HandleMarkerProcessor? && !status.Suspended?
  {
    hide Serves, MadeBy, Contiguous, Fits, ConsumesWindow;
    StateFits(scan, layout, d.process, out, d.calls, d.received, d.consumed);
  }

  // ---------------------------------------------------------------- there are such processors

  /** A call that asks for more input whenever the next MCU cannot be decoded. */
  ghost function PatientCall(scan: Scan, layout: Layout, s: ScanState, unread: Byte, data: seq<Byte>): (Processed, ScanState)
    requires layout.Valid()
  {
    if s.over then (Processed(ScanCompleted, 0, unread), s)
    else if !(|s.mcus| < layout.total && At(scan, data, s.at)) then (Processed(Status.NeedMoreInput, 0, unread), s)
    else
      var k := layout.LeftOfRow(|s.mcus|);
      var (part, q) := NextMcus(scan, data, s.at, k);
      var mcus := s.mcus + part;
      if |part| == k then
        if |mcus| == layout.total then (Processed(ScanCompleted, SkipPartial(data, q), unread), ScanState(mcus, q, true))
        else (Processed(RowCompleted, q.pos, unread), ScanState(mcus, FromStart(q), false))
      else if RestartDue(scan, q) && MarkerAt(scan, data, q) + 2 <= |data| then
        var m := MarkerAt(scan, data, q);
        (Processed(HandleRestart, m + 2, data[m + 1]), ScanState(mcus, AfterRestart(scan, q), false))
      else
        var again := Resuming(scan, data, q);
        (Processed(Status.NeedMoreInput, again.pos, unread), ScanState(mcus, FromStart(again), false))
  }

  ghost function PatientState(scan: Scan, layout: Layout, calls: seq<Call>): ScanState
    requires layout.Valid()
  {
    if calls == [] then FirstState(scan)
    else PatientCall(scan, layout, PatientState(scan, layout, calls[..|calls| - 1]), calls[|calls| - 1].unread, calls[|calls| - 1].data).1
  }

  /** The MCUs that are found do not depend on how many were asked for. */
  lemma {:induction false} NoMoreFound(scan: Scan, data: seq<Byte>, p: Position, k: nat)
    requires At(scan, data, p)
    ensures var found := NextMcus(scan, data, p, k);
      && NextMcus(scan, data, p, |found.0|) == found
      && (|found.0| < k ==> RestartDue(scan, found.1) || !McuStep(scan, data, found.1).Decoded?)
  {
    hide McuStep;
    if k > 0 {
      NoMoreFound(scan, data, p, k - 1);
    }
  }

  lemma PatientServes(scan: Scan, layout: Layout, s: ScanState, unread: Byte, data: seq<Byte>)
    requires layout.Valid() && !s.over && |s.mcus| < layout.total && At(scan, data, s.at)
    ensures var (r, t) := PatientCall(scan, layout, s, unread, data);
      var k := layout.LeftOfRow(|s.mcus|);
      && s.mcus <= t.mcus && (t.over <==> r.status.ScanCompleted? || r.status.Failed?)
      && Processes(scan, data, s.at, k, k == layout.total - |s.mcus|, unread, t.mcus[|s.mcus|..], r, t.at)
  {
    var k := layout.LeftOfRow(|s.mcus|);
    NoMoreFound(scan, data, s.at, k);
    var (part, q) := NextMcus(scan, data, s.at, k);
    assert (s.mcus + part)[|s.mcus|..] == part;
    hide NextMcus, McuStep, FindMarker, SkipPartial, Processes, RestartStep;
    if |part| == k {
      EndsRow(scan, data, s.at, k == layout.total - |s.mcus|, unread, part, q);
    } else {
      if RestartDue(scan, q) {
        RestartIs(scan, data, q, MarkerAt(scan, data, q));
      }
      if RestartDue(scan, q) && data != [] {
        StopsAtRestart(scan, data, s.at, k, k == layout.total - |s.mcus|, unread, part, q);
      } else {
        StopsForInput(scan, data, s.at, k, k == layout.total - |s.mcus|, unread, part, q);
      }
    }
  }

  /** For every scan and layout there is a processor that decodes it. */
  lemma ScanProcessorExists(scan: Scan, layout: Layout)
    requires scan.Valid() && layout.Valid()
    ensures exists p: Processor, out: seq<Call> -> ScanState :: DecodesScan(scan, layout, p, out)
  {
    hide DecodesScan, PatientCall, PatientState;
    var p: Processor := (calls: seq<Call>, unread: Byte, data: seq<Byte>) => PatientCall(scan, layout, PatientState(scan, layout, calls), unread, data).0;
    var out: seq<Call> -> ScanState := calls => PatientState(scan, layout, calls);
    PatientScanDecodes(scan, layout, p, out);
  }

  lemma PatientScanDecodes(scan: Scan, layout: Layout, p: Processor, out: seq<Call> -> ScanState)
    requires scan.Valid() && layout.Valid()
    requires forall calls, unread, data :: p(calls, unread, data) == PatientCall(scan, layout, PatientState(scan, layout, calls), unread, data).0
    requires forall calls :: out(calls) == PatientState(scan, layout, calls)
    ensures DecodesScan(scan, layout, p, out)
  {
    forall calls: seq<Call>, unread: Byte, data: seq<Byte>
      ensures Sound(unread, data, p(calls, unread, data))
    {
      var s := PatientState(scan, layout, calls);
      if !s.over && |s.mcus| < layout.total && At(scan, data, s.at) {
        var (r, t) := PatientCall(scan, layout, s, unread, data);
        var k := layout.LeftOfRow(|s.mcus|);
        PatientServes(scan, layout, s, unread, data);
        hide PatientCall;
        MoreToDeliver(scan, data, s.at, k, k == layout.total - |s.mcus|, unread, t.mcus[|s.mcus|..], r, t.at);
      }
    }
    forall calls: seq<Call> | calls != [] && MadeBy(p, calls)
      ensures Serves(scan, layout, out(calls[..|calls| - 1]), calls[|calls| - 1], out(calls))
    {
      var s, call := out(calls[..|calls| - 1]), calls[|calls| - 1];
      CallMadeBy(p, calls, |calls| - 1);
      if !s.over && |s.mcus| < layout.total && At(scan, call.data, s.at) {
        PatientServes(scan, layout, s, call.unread, call.data);
      }
      hide NextMcus, McuStep, FindMarker, SkipPartial, MadeBy;
    }
  }
}
