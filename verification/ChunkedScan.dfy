/** Decoding a scan does not depend on the pieces in which its input arrives. */
module ChunkedScan {
  import opened Arithmetic
  import opened BlockSymbols
  import opened BlockDecoding
  import opened BlockReader
  import opened EntropyStream
  import opened McuStability
  import opened HuffmanLookup
  import opened SymbolLookup
  import opened ScanSteps
  import opened ScanWindows
  import opened ScanDecoding
  import opened ScanProcessing
  import opened InputStitching
  import ScanWriter

  function Beginning(scan: Scan): Position {
    Position(0, 0, NoPrediction(scan), scan.interval, 0)
  }

  function Behind(p: Position, off: nat): Position {
    p.(pos := p.pos + off)
  }

  lemma BehindMoved(p: Position, off: nat)
    ensures Moved(Behind(p, off), off) == p
  {
  }

  lemma Longer(scan: Scan, data: seq<Byte>, more: seq<Byte>, p: Position, n: nat, mcus: seq<seq<Block>>, q: Position)
    requires Continues(scan, data, p, n, mcus, q) && data <= more
    ensures Continues(scan, more, p, n, mcus, q)
  {
  }

  lemma AtBehind(scan: Scan, data: seq<Byte>, off: nat, p: Position)
    requires off <= |data| && At(scan, data[off..], p)
    ensures At(scan, data, Behind(p, off))
  {
    DroppedMore(data, off, p.pos + off);
  }

  lemma DropPrefix(data: seq<Byte>, more: seq<Byte>, off: nat)
    requires data <= more && off <= |data|
    ensures data[off..] <= more[off..]
  {
  }

  /** The MCUs of the whole input from its beginning, then those of its unread part. */
  lemma Compose(scan: Scan, total: seq<Byte>, off: nat, b: Position, n: nat, mcus: seq<seq<Block>>,
                p: Position, part: seq<seq<Block>>, q: Position)
    requires off <= |total| && Continues(scan, total, b, n, mcus, Behind(p, off))
    requires Continues(scan, total[off..], p, n - |mcus|, part, q)
    ensures Continues(scan, total, b, n, mcus + part, Behind(q, off))
  {
    hide McuRun, Continues;
    ContinuesAt(scan, total, b, n, mcus, Behind(p, off), total);
    ContinuesAt(scan, total[off..], p, n - |mcus|, part, q, total[off..]);
    forall more: seq<Byte> | total <= more
      ensures At(scan, more, b) && At(scan, more, Behind(q, off))
      ensures McuRun(scan, more, b, n).0 == mcus + part + McuRun(scan, more, Behind(q, off), n - |mcus + part|).0
    {
      DropPrefix(total, more, off);
      ContinuesAt(scan, total, b, n, mcus, Behind(p, off), more);
      ContinuesAt(scan, total[off..], p, n - |mcus|, part, q, more[off..]);
      AtBehind(scan, more, off, q);
      BehindMoved(p, off);
      BehindMoved(q, off);
      DroppedRun(scan, more, Behind(p, off), off, n - |mcus|);
      DroppedRun(scan, more, Behind(q, off), off, n - |mcus + part|);
      Regroup(mcus, part, McuRun(scan, more, Behind(q, off), n - |mcus + part|).0);
    }
    AllContinue(scan, total, b, n, mcus + part, Behind(q, off));
  }

  lemma Regroup<T>(a: seq<T>, b: seq<T>, c: seq<T>)
    ensures a + (b + c) == a + b + c
  {
  }

  /** Whatever input follows, the MCUs from p on are these. */
  ghost predicate Ends(scan: Scan, data: seq<Byte>, p: Position, n: nat, mcus: seq<seq<Block>>) {
    forall more: seq<Byte> :: data <= more ==> At(scan, more, p) && McuRun(scan, more, p, n).0 == mcus
  }

  lemma EndsAt(scan: Scan, data: seq<Byte>, p: Position, n: nat, mcus: seq<seq<Block>>, more: seq<Byte>)
    requires Ends(scan, data, p, n, mcus) && data <= more
    ensures At(scan, more, p) && McuRun(scan, more, p, n).0 == mcus
  {
  }

  lemma AllEnd(scan: Scan, data: seq<Byte>, p: Position, n: nat, mcus: seq<seq<Block>>)
    requires forall more: seq<Byte> :: data <= more ==> At(scan, more, p) && McuRun(scan, more, p, n).0 == mcus
    ensures Ends(scan, data, p, n, mcus)
  {
  }

  /** Nothing follows: all MCUs have been delivered, or no step is possible. */
  lemma NothingFollows(scan: Scan, data: seq<Byte>, p: Position, n: nat, mcus: seq<seq<Block>>, q: Position, more: seq<Byte>)
    requires Continues(scan, data, p, n, mcus, q) && data <= more && At(scan, more, q)
    requires |mcus| == n || StepAt(scan, more, q) == Stuck
    ensures At(scan, more, p) && McuRun(scan, more, p, n).0 == mcus
  {
    ContinuesAt(scan, data, p, n, mcus, q, more);
    hide StepAt;
    assert McuRun(scan, more, q, n - |mcus|).0 == [];
  }

  lemma NothingFollowsEver(scan: Scan, data: seq<Byte>, p: Position, n: nat, mcus: seq<seq<Block>>, q: Position)
    requires Continues(scan, data, p, n, mcus, q) && At(scan, data, q) && (|mcus| == n || Hopeless(scan, data, q))
    ensures Ends(scan, data, p, n, mcus)
  {
    hide StepAt, Continues, McuRun;
    forall more: seq<Byte> | data <= more
      ensures At(scan, more, p) && McuRun(scan, more, p, n).0 == mcus
    {
      AtStays(scan, data, more, q);
      NothingFollows(scan, data, p, n, mcus, q, more);
    }
    AllEnd(scan, data, p, n, mcus);
  }

  /** The MCUs of the whole input from its beginning, then the last ones from its unread part. */
  lemma ComposeEnd(scan: Scan, total: seq<Byte>, off: nat, b: Position, n: nat, mcus: seq<seq<Block>>, p: Position, part: seq<seq<Block>>)
    requires off <= |total| && Continues(scan, total, b, n, mcus, Behind(p, off)) && Ends(scan, total[off..], p, n - |mcus|, part)
    ensures Ends(scan, total, b, n, mcus + part)
  {
    hide McuRun, Continues, Ends;
    forall more: seq<Byte> | total <= more
      ensures At(scan, more, b) && McuRun(scan, more, b, n).0 == mcus + part
    {
      DropPrefix(total, more, off);
      ContinuesAt(scan, total, b, n, mcus, Behind(p, off), more);
      EndsAt(scan, total[off..], p, n - |mcus|, part, more[off..]);
      BehindMoved(p, off);
      DroppedRun(scan, more, Behind(p, off), off, n - |mcus|);
    }
    AllEnd(scan, total, b, n, mcus + part);
  }

  // ---------------------------------------------------------------- one call

  lemma {:induction false} NextContinues(scan: Scan, data: seq<Byte>, p: Position, n: nat, k: nat)
    requires At(scan, data, p) && k <= n
    ensures var (mcus, q) := NextMcus(scan, data, p, k); Continues(scan, data, p, n, mcus, q) && q.marker == p.marker
  {
    hide Continues, McuStep;
    if k == 0 {
      NothingYet(scan, data, p, n);
    } else {
      NextContinues(scan, data, p, n, k - 1);
      var (mcus, q) := NextMcus(scan, data, p, k - 1);
      if |mcus| == k - 1 && !RestartDue(scan, q) && McuStep(scan, data, q).Decoded? {
        OneMoreMcu(scan, data, p, n, mcus, q);
        SameMarker(scan, data, q);
      }
    }
  }

  lemma SameMarker(scan: Scan, data: seq<Byte>, p: Position)
    requires At(scan, data, p) && McuStep(scan, data, p).Decoded?
    ensures McuStep(scan, data, p).next.marker == p.marker
  {
    hide DecodeMcu, Ahead, PosAt, Bytes;
  }

  lemma WrongRestart(scan: Scan, data: seq<Byte>, q: Position)
    requires At(scan, data, q) && RestartDue(scan, q) && MarkerAt(scan, data, q) + 2 <= |data|
    requires data[MarkerAt(scan, data, q) + 1] != 0xD0 + q.marker
    ensures Hopeless(scan, data, q)
  {
    RestartIs(scan, data, q, MarkerAt(scan, data, q));
    hide StepAt, FindMarker, SkipPartial;
    WrongMarker(scan, data, q);
  }

  lemma RightRestart(scan: Scan, data: seq<Byte>, q: Position)
    requires At(scan, data, q) && RestartDue(scan, q) && MarkerAt(scan, data, q) + 2 <= |data|
    requires data[MarkerAt(scan, data, q) + 1] == 0xD0 + q.marker
    ensures StepAt(scan, data, q) == Restarted(Behind(AfterRestart(scan, q), MarkerAt(scan, data, q) + 2))
  {
    hide FindMarker, SkipPartial;
  }

  /** Decoding goes on after the call. */
  predicate GoesOn(r: Processed, marker: nat) {
    r.status.NeedMoreInput? || r.status.RowCompleted? || (r.status.HandleRestart? && r.unread == 0xD0 + marker)
  }

  /** What a call delivers are the next MCUs, and either decoding goes on where it stopped, or these are the last. */
  lemma CallDelivers(scan: Scan, data: seq<Byte>, p: Position, n: nat, k: nat, last: bool, unread: Byte,
                     mcus: seq<seq<Block>>, r: Processed, next: Position)
    requires At(scan, data, p) && Processes(scan, data, p, k, last, unread, mcus, r, next) && k <= n && (last ==> k == n)
    ensures r.read <= |data| && |mcus| <= n
    ensures if GoesOn(r, p.marker)
            then next.pos == 0 && At(scan, data, Behind(next, r.read)) && Continues(scan, data, p, n, mcus, Behind(next, r.read))
                 && (r.status.NeedMoreInput? ==> StepAt(scan, data, Behind(next, r.read)) == Stuck)
            else Ends(scan, data, p, n, mcus)
  {
    hide Continues, Ends, StepAt, McuStep, NextMcus, FindMarker, SkipPartial;
    NextContinues(scan, data, p, n, |mcus|);
    var q := NextMcus(scan, data, p, |mcus|).1;
    if !GoesOn(r, p.marker) {
      if r.status.HandleRestart? {
        WrongRestart(scan, data, q);
      }
      NothingFollowsEver(scan, data, p, n, mcus, q);
    } else if r.status.HandleRestart? {
      RightRestart(scan, data, q);
      RestartPassed(scan, data, p, n, mcus, q);
    } else if r.status.NeedMoreInput? && data != [] && RestartDue(scan, q) {
      SearchGoesOn(scan, data, p, n, mcus, q);
    }
  }

  // ---------------------------------------------------------------- many calls

  /** What the calls for a scan have delivered, where decoding stands in the next window, and whether they are over. */
  datatype ScanState = ScanState(mcus: seq<seq<Block>>, at: Position, over: bool)

  function FirstState(scan: Scan): ScanState {
    ScanState([], Beginning(scan), false)
  }

  /** Of the stream so far, these bytes have been consumed; the MCUs delivered are the first ones of any stream that
      begins like this, and decoding goes on at the next one, or they are all. */
  ghost predicate Delivered(scan: Scan, total: nat, stream: seq<Byte>, consumed: nat, s: ScanState) {
    && consumed <= |stream|
    && if s.over then Ends(scan, stream, Beginning(scan), total, s.mcus)
       else |s.mcus| < total && s.at.pos == 0 && At(scan, stream[consumed..], s.at)
            && Continues(scan, stream, Beginning(scan), total, s.mcus, Behind(s.at, consumed))
  }

  lemma NothingDelivered(scan: Scan, total: nat)
    requires scan.Valid() && total > 0
    ensures Delivered(scan, total, [], 0, FirstState(scan))
  {
    var none: seq<Byte> := [];
    assert none[0..] == none;
    NothingYet(scan, [], Beginning(scan), total);
  }

  lemma DeliveredLonger(scan: Scan, total: nat, stream: seq<Byte>, more: seq<Byte>, consumed: nat, s: ScanState)
    requires Delivered(scan, total, stream, consumed, s) && stream <= more
    ensures Delivered(scan, total, more, consumed, s)
  {
    hide Continues, Ends, McuRun;
    DropPrefix(stream, more, consumed);
    if s.over {
      forall longer: seq<Byte> | more <= longer
        ensures At(scan, longer, Beginning(scan)) && McuRun(scan, longer, Beginning(scan), total).0 == s.mcus
      {
        EndsAt(scan, stream, Beginning(scan), total, s.mcus, longer);
      }
      AllEnd(scan, more, Beginning(scan), total, s.mcus);
    } else {
      AtStays(scan, stream[consumed..], more[consumed..], s.at);
      Longer(scan, stream, more, Beginning(scan), total, s.mcus, Behind(s.at, consumed));
    }
  }

  /** Consumed input is dropped. */
  lemma DropConsumed(scan: Scan, total: seq<Byte>, off: nat, q: Position)
    requires off <= |total| && At(scan, total[off..], q)
    ensures off + q.pos <= |total| && total[off..][q.pos..] == total[off + q.pos..]
    ensures At(scan, total[off + q.pos..], Moved(q, q.pos)) && Behind(q, off) == Behind(Moved(q, q.pos), off + q.pos)
    ensures StepAt(scan, total[off..], q) == Stuck ==> StepAt(scan, total[off + q.pos..], Moved(q, q.pos)) == Stuck
  {
    hide StepAt;
    assert total[off..][q.pos..] == total[off + q.pos..];
    DroppedAt(scan, total[off..], q, q.pos);
    DroppedStep(scan, total[off..], q, q.pos);
  }

  /** One more call, for the bytes that have not been consumed. If it needs more input, it has delivered all MCUs of the
      stream so far. */
  lemma DeliveredByCall(scan: Scan, total: nat, stream: seq<Byte>, consumed: nat, s: ScanState, k: nat, unread: Byte,
                        part: seq<seq<Block>>, r: Processed, next: Position)
    requires Delivered(scan, total, stream, consumed, s) && !s.over && k <= total - |s.mcus|
    requires Processes(scan, stream[consumed..], s.at, k, k == total - |s.mcus|, unread, part, r, next)
    ensures consumed + r.read <= |stream|
    ensures Delivered(scan, total, stream, consumed + r.read, ScanState(s.mcus + part, next, !GoesOn(r, s.at.marker)))
    ensures r.status.NeedMoreInput? ==>
            At(scan, stream, Beginning(scan)) && McuRun(scan, stream, Beginning(scan), total).0 == s.mcus + part
  {
    hide Continues, Ends, StepAt, McuRun, NextMcus, FindMarker, SkipPartial;
    var b, n := Beginning(scan), total - |s.mcus|;
    var data := stream[consumed..];
    CallDelivers(scan, data, s.at, n, k, k == n, unread, part, r, next);
    if GoesOn(r, s.at.marker) {
      var q := Behind(next, r.read);
      MoreToDeliver(scan, data, s.at, k, k == n, unread, part, r, next);
      Compose(scan, stream, consumed, b, total, s.mcus, s.at, part, q);
      DropConsumed(scan, stream, consumed, q);
      BehindMoved(next, r.read);
      if r.status.NeedMoreInput? {
        AtBehind(scan, stream, consumed, q);
        BehindMoved(q, consumed);
        DroppedStep(scan, stream, Behind(q, consumed), consumed);
        NothingFollows(scan, stream, b, total, s.mcus + part, Behind(q, consumed), stream);
      }
    } else {
      ComposeEnd(scan, stream, consumed, b, total, s.mcus, s.at, part);
    }
  }

  lemma MoreToDeliver(scan: Scan, data: seq<Byte>, p: Position, k: nat, last: bool, unread: Byte,
                      mcus: seq<seq<Block>>, r: Processed, next: Position)
    requires At(scan, data, p) && Processes(scan, data, p, k, last, unread, mcus, r, next)
    ensures |mcus| <= k && (r.status.RowCompleted? <==> |mcus| == k && !last) && (GoesOn(r, p.marker) && |mcus| == k ==> !last)
    ensures Sound(unread, data, r)
  {
    hide NextMcus, StepAt, Hopeless;
  }

  lemma DeliveredAt(scan: Scan, total: nat, stream: seq<Byte>, consumed: nat, s: ScanState)
    requires Delivered(scan, total, stream, consumed, s)
    ensures consumed <= |stream|
    ensures if s.over then At(scan, stream, Beginning(scan)) && McuRun(scan, stream, Beginning(scan), total).0 == s.mcus
            else |s.mcus| < total && s.at.pos == 0 && At(scan, stream[consumed..], s.at)
  {
    hide McuRun, Continues;
    if s.over {
      EndsAt(scan, stream, Beginning(scan), total, s.mcus, stream);
    }
  }

  lemma NoMcus(scan: Scan, data: seq<Byte>, n: nat)
    requires scan.Valid() && (data == [] || n == 0)
    ensures At(scan, data, Beginning(scan)) && McuRun(scan, data, Beginning(scan), n).0 == []
  {
    if data == [] {
      NothingInNothing(scan, Beginning(scan));
    }
    hide StepAt;
  }

  lemma FrontIsNotFF(scan: Scan, data: seq<Byte>, p: Position)
    requires p.pos == 0
    ensures Startable(scan, data, p)
  {
  }

  lemma ConcatStep(chunks: seq<seq<Byte>>, i: nat)
    requires i < |chunks|
    ensures ScanWriter.Concat(chunks[..i + 1]) == ScanWriter.Concat(chunks[..i]) + chunks[i]
  {
    assert chunks[..i + 1][..i] == chunks[..i];
  }

  lemma {:induction false} ConcatPrefix(chunks: seq<seq<Byte>>, i: nat)
    requires i <= |chunks|
    ensures ScanWriter.Concat(chunks[..i]) <= ScanWriter.Concat(chunks)
    decreases |chunks| - i
  {
    hide ScanWriter.Concat;
    if i < |chunks| {
      ConcatStep(chunks, i);
      ConcatPrefix(chunks, i + 1);
    } else {
      assert chunks[..i] == chunks;
    }
  }

  lemma EmptyConcat(chunks: seq<seq<Byte>>)
    ensures ScanWriter.Concat(chunks[..0]) == []
  {
  }

  /** For every division of the input into pieces, and although only unread input is kept between them, the MCUs are
      those of the whole input. */
  method DecodeChunks(scan: Scan, dcLuts: seq<array<Entry>>, acLuts: seq<array<Entry>>, chunks: seq<seq<Byte>>, n: nat)
      returns (mcus: seq<seq<Block>>)
    requires Tabled(scan, dcLuts, acLuts)
    ensures At(scan, ScanWriter.Concat(chunks), Beginning(scan))
    ensures mcus == McuRun(scan, ScanWriter.Concat(chunks), Beginning(scan), n).0
  {
    hide Refines, Processes, Delivered, McuRun, At, Startable, ScanWriter.Concat;
    var window, p := [], Beginning(scan);
    ghost var full, stream, off: nat := ScanWriter.Concat(chunks), [], 0;
    mcus := [];
    if n == 0 {
      NoMcus(scan, full, n);
      return;
    }
    NoMcus(scan, [], n);
    NothingDelivered(scan, n);
    EmptyConcat(chunks);
    for i := 0 to |chunks|
      invariant stream == ScanWriter.Concat(chunks[..i]) && off <= |stream| && window == stream[off..]
      invariant Delivered(scan, n, stream, off, ScanState(mcus, p, false))
      invariant At(scan, stream, Beginning(scan)) && McuRun(scan, stream, Beginning(scan), n).0 == mcus
    {
      ConcatStep(chunks, i);
      ConcatPrefix(chunks, i + 1);
      DeliveredLonger(scan, n, stream, stream + chunks[i], off, ScanState(mcus, p, false));
      window := window + chunks[i];
      stream := stream + chunks[i];
      assert window == stream[off..];
      var more := true;
      while more
        invariant off <= |stream| && window == stream[off..]
        invariant Delivered(scan, n, stream, off, ScanState(mcus, p, false))
        invariant !more ==> At(scan, stream, Beginning(scan)) && McuRun(scan, stream, Beginning(scan), n).0 == mcus
        decreases |window|, more
      {
        DeliveredAt(scan, n, stream, off, ScanState(mcus, p, false));
        FrontIsNotFF(scan, window, p);
        var part, r, next := ProcessScan(scan, dcLuts, acLuts, window, p, n - |mcus|, true, 0);
        MoreToDeliver(scan, window, p, n - |mcus|, true, 0, part, r, next);
        DeliveredByCall(scan, n, stream, off, ScanState(mcus, p, false), n - |mcus|, 0, part, r, next);
        mcus := mcus + part;
        if !GoesOn(r, p.marker) {
          DeliveredLonger(scan, n, stream, full, off + r.read, ScanState(mcus, next, true));
          DeliveredAt(scan, n, full, off + r.read, ScanState(mcus, next, true));
          return;
        }
        more := !r.status.NeedMoreInput?;
        window, p, off := window[r.read..], next, off + r.read;
        assert window == stream[off..];
      }
    }
    assert chunks[..|chunks|] == chunks;
  }
}
