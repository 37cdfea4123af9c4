/**
 One call of the decoder for the entropy-coded data of a scan (ProcessScan in lib/jpegli/decode_scan.cc): MCUs up to
 the end of the iMCU row, the next restart marker, or the end of the window.
 */
module ScanProcessing {
  import opened Arithmetic
  import opened EntropyStream
  import opened BlockSymbols
  import opened HuffmanLookup
  import opened SymbolLookup
  import opened ScanSteps
  import opened ScanDecoding
  import opened InputStitching

  predicate RestartDue(scan: Scan, p: Position) {
    scan.interval > 0 && p.toGo == 0
  }

  /** The next k MCUs, as far as they can be decoded without passing a restart, and the position after them. */
  function NextMcus(scan: Scan, data: seq<Byte>, p: Position, k: nat): (r: (seq<seq<Block>>, Position))
    requires At(scan, data, p)
    ensures |r.0| <= k && At(scan, data, r.1)
  {
    if k == 0 then ([], p) else
      var (mcus, q) := NextMcus(scan, data, p, k - 1);
      if |mcus| == k - 1 && !RestartDue(scan, q) && McuStep(scan, data, q).Decoded? then
        McuStepIsAt(scan, data, q);
        (mcus + [McuStep(scan, data, q).blocks], McuStep(scan, data, q).next)
      else (mcus, q)
  }

  /** Where the search for more input resumes: bytes before a missing restart marker are skipped. */
  function Resuming(scan: Scan, data: seq<Byte>, q: Position): (r: Position)
    requires At(scan, data, q)
    ensures q.pos <= r.pos <= |data|
  {
    if data != [] && RestartDue(scan, q) then Searching(scan, data, q) else q
  }

  function MarkerAt(scan: Scan, data: seq<Byte>, q: Position): nat
    requires At(scan, data, q)
  {
    FindMarker(data, SkipPartial(data, q))
  }

  function AfterRestart(scan: Scan, q: Position): Position {
    Position(0, 0, NoPrediction(scan), scan.interval, (q.marker + 1) % 8)
  }

  function FromStart(q: Position): Position {
    q.(pos := 0)
  }

  /** What one call does, from position p of its window on: it delivers these MCUs, returns r, and goes on at position
      next of the window of the next call. The iMCU row has k more MCUs; `last` tells whether it is the last one. */
  ghost predicate Processes(scan: Scan, data: seq<Byte>, p: Position, k: nat, last: bool, unread: Byte,
                            mcus: seq<seq<Block>>, r: Processed, next: Position)
    requires At(scan, data, p)
  {
    var (found, q) := NextMcus(scan, data, p, |mcus|);
    && found == mcus && |mcus| <= k && (r.status.HandleRestart? || r.unread == unread)
    && match r.status
       case NeedMoreInput =>
         |mcus| < k && StepAt(scan, data, q) == Stuck && (RestartDue(scan, q) ==> MarkerAt(scan, data, q) + 2 > |data|)
         && r.read == Resuming(scan, data, q).pos && next == FromStart(Resuming(scan, data, q))
       case HandleRestart =>
         |mcus| < k && RestartDue(scan, q) && MarkerAt(scan, data, q) + 2 == r.read <= |data|
         && r.unread == data[r.read - 1] && next == AfterRestart(scan, q)
       case RowCompleted => |mcus| == k && !last && r.read == q.pos && next == FromStart(q)
       case ScanCompleted =>
         if |mcus| == k then last && r.read == SkipPartial(data, q)
         else !RestartDue(scan, q) && Hopeless(scan, data, q) && q.pos <= r.read && AtMarker(data, r.read)
       case Failed => |mcus| < k && !RestartDue(scan, q) && Hopeless(scan, data, q) && r.read == 0
       case _ => false
  }

  lemma OneMore(scan: Scan, data: seq<Byte>, p: Position, mcus: seq<seq<Block>>, q: Position, blocks: seq<Block>, next: Position)
    requires At(scan, data, p) && At(scan, data, q) && NextMcus(scan, data, p, |mcus|) == (mcus, q) && !RestartDue(scan, q)
    requires StepAt(scan, data, q) == Decoded(blocks, next)
    ensures NextMcus(scan, data, p, |mcus| + 1) == (mcus + [blocks], next) && At(scan, data, next)
  {
    hide McuStep;
    McuStepIsAt(scan, data, q);
  }

  lemma NoneYet(scan: Scan, data: seq<Byte>, p: Position)
    requires At(scan, data, p)
    ensures NextMcus(scan, data, p, 0) == ([], p)
  {
  }

  /** The call stops at a restart that is due: at its marker, or where the search for it goes on. */
  lemma StopsAtRestart(scan: Scan, data: seq<Byte>, p: Position, k: nat, last: bool, unread: Byte, mcus: seq<seq<Block>>, q: Position)
    requires At(scan, data, p) && At(scan, data, q) && NextMcus(scan, data, p, |mcus|) == (mcus, q) && |mcus| < k
    requires data != [] && RestartDue(scan, q)
    ensures var m := MarkerAt(scan, data, q);
      if m + 2 > |data| then
        StepAt(scan, data, q) == Stuck ==>
        Processes(scan, data, p, k, last, unread, mcus, Processed(Status.NeedMoreInput, m, unread), FromStart(Searching(scan, data, q)))
      else Processes(scan, data, p, k, last, unread, mcus, Processed(HandleRestart, m + 2, data[m + 1]), AfterRestart(scan, q))
  {
    hide StepAt, Hopeless, NextMcus, FindMarker, SkipPartial;
  }

  /** The call stops where the next MCU is not there yet. */
  lemma StopsForInput(scan: Scan, data: seq<Byte>, p: Position, k: nat, last: bool, unread: Byte, mcus: seq<seq<Block>>, q: Position)
    requires At(scan, data, p) && At(scan, data, q) && NextMcus(scan, data, p, |mcus|) == (mcus, q) && |mcus| < k
    requires data == [] || !RestartDue(scan, q)
    requires StepAt(scan, data, q) == Stuck && (RestartDue(scan, q) ==> MarkerAt(scan, data, q) + 2 > |data|)
    ensures Processes(scan, data, p, k, last, unread, mcus, Processed(Status.NeedMoreInput, q.pos, unread), FromStart(q))
  {
    hide StepAt, Hopeless, NextMcus, FindMarker, SkipPartial;
  }

  /** The call stops where no MCU will ever be. */
  lemma GivesUp(scan: Scan, data: seq<Byte>, p: Position, k: nat, last: bool, unread: Byte, mcus: seq<seq<Block>>, q: Position, marker: nat)
    requires At(scan, data, p) && At(scan, data, q) && NextMcus(scan, data, p, |mcus|) == (mcus, q) && |mcus| < k
    requires !RestartDue(scan, q) && Hopeless(scan, data, q)
    ensures Processes(scan, data, p, k, last, unread, mcus, Processed(Failed, 0, unread), p)
    ensures q.pos <= marker && AtMarker(data, marker) ==>
      Processes(scan, data, p, k, last, unread, mcus, Processed(ScanCompleted, marker, unread), p)
  {
    hide StepAt, Hopeless, NextMcus, FindMarker, SkipPartial;
  }

  /** The call ends with k MCUs. */
  lemma EndsRow(scan: Scan, data: seq<Byte>, p: Position, last: bool, unread: Byte, mcus: seq<seq<Block>>, q: Position)
    requires At(scan, data, p) && At(scan, data, q) && NextMcus(scan, data, p, |mcus|) == (mcus, q)
    ensures !last ==> Processes(scan, data, p, |mcus|, last, unread, mcus, Processed(RowCompleted, q.pos, unread), FromStart(q))
    ensures last ==> Processes(scan, data, p, |mcus|, last, unread, mcus, Processed(ScanCompleted, SkipPartial(data, q), unread), q)
  {
    hide StepAt, Hopeless, NextMcus, FindMarker;
  }

  /** Decodes up to k MCUs of a window. */
  method ProcessScan(scan: Scan, dcLuts: seq<array<Entry>>, acLuts: seq<array<Entry>>, data: seq<Byte>, p: Position, k: nat, last: bool, unread: Byte)
      returns (mcus: seq<seq<Block>>, r: Processed, next: Position)
    requires Tabled(scan, dcLuts, acLuts) && At(scan, data, p) && Startable(scan, data, p) && k > 0
    ensures Processes(scan, data, p, k, last, unread, mcus, r, next)
  {
    hide Refines, StepAt, Hopeless, AfterFF, FindMarker, Tabled, Processes, NextMcus;
    NoneYet(scan, data, p);
    if data == [] {
      NothingInNothing(scan, p);
      StopsForInput(scan, data, p, k, last, unread, [], p);
      return [], Processed(Status.NeedMoreInput, 0, unread), FromStart(p);
    }
    var q := p;
    mcus := [];
    while true
      invariant |mcus| < k && At(scan, data, q) && Startable(scan, data, q) && NextMcus(scan, data, p, |mcus|) == (mcus, q)
      decreases k - |mcus|
    {
      if scan.interval > 0 && q.toGo == 0 {
        var from := if q.bitPos == 0 then q.pos else if data[q.pos] == 0xFF then q.pos + 2 else q.pos + 1;
        var m := SearchMarker(data, from);
        RestartIs(scan, data, q, m);
        StopsAtRestart(scan, data, p, k, last, unread, mcus, q);
        if m + 2 > |data| {
          return mcus, Processed(Status.NeedMoreInput, m, unread), Position(0, 0, NoPrediction(scan), q.toGo, q.marker);
        }
        return mcus, Processed(HandleRestart, m + 2, data[m + 1]), AfterRestart(scan, q);
      }
      var result := DecodeOneMcu(scan, dcLuts, acLuts, data, q);
      match result
      case NeedMoreInput =>
        StopsForInput(scan, data, p, k, last, unread, mcus, q);
        return mcus, Processed(Status.NeedMoreInput, q.pos, unread), FromStart(q);
      case EarlyEnd(marker) =>
        GivesUp(scan, data, p, k, last, unread, mcus, q, marker);
        return mcus, Processed(ScanCompleted, marker, unread), p;
      case Rejected =>
        GivesUp(scan, data, p, k, last, unread, mcus, q, 0);
        return mcus, Processed(Failed, 0, unread), p;
      case McuDecoded(blocks, after) =>
        OneMore(scan, data, p, mcus, q, blocks, after);
        mcus, q := mcus + [blocks], after;
      if |mcus| == k {
        EndsRow(scan, data, p, last, unread, mcus, q);
        if last {
          return mcus, Processed(ScanCompleted, if q.bitPos == 0 then q.pos else if data[q.pos] == 0xFF then q.pos + 2 else q.pos + 1, unread), q;
        }
        return mcus, Processed(RowCompleted, q.pos, unread), FromStart(q);
      }
    }
  }
}
