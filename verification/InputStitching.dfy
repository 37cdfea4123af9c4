/** How the decoder hands its input to the processors of markers and scans (ConsumeInput in
    lib/jpegli/decode.cc): unread bytes of earlier buffers are kept in front of the new one. */
module InputStitching {
  import opened Arithmetic

  datatype Status =
    | NeedMoreInput
    | HandleRestart
    | HandleMarkerProcessor
    | Suspended
    | RowCompleted
    | ScanCompleted
    | ReachedSOS
    | ReachedEOI
    | Failed                          // the error handler of the application does not return

  datatype Outcome = Returned(status: Status) | EmptyInput

  /** What a processor returns: its status, the bytes that it consumed, and the code of a marker that was read and not
      yet handled, or 0. */
  datatype Processed = Processed(status: Status, read: nat, unread: Byte)
  {
    predicate AtMarker() {
      status.HandleRestart? || status.HandleMarkerProcessor?
    }
  }

  /** A call of a processor: where its window began in the stream, the unread marker, the window, the result, and the
      bytes consumed up to the next call. */
  datatype Call = Call(start: nat, unread: Byte, data: seq<Byte>, result: Processed, used: nat)
  {
    function WindowEnd(): nat {
      start + |data|
    }

    /** What the unread marker can be afterwards: a marker that the processor stopped at may have been handled. */
    predicate Leaves(unread: Byte) {
      unread == result.unread || (result.AtMarker() && unread == 0)
    }
  }

  /** A processor, and a custom marker parser with the bytes that it consumes. The first argument, the calls so far, stands
      for whatever they remember; then come the unread marker and the window. */
  type Processor = (seq<Call>, Byte, seq<Byte>) -> Processed
  type MarkerParser = (seq<Call>, seq<Byte>) -> (bool, nat)

  /** Processors consume bytes of the window only, and the two bytes of a marker when they read one. */
  predicate Sound(unread: Byte, d: seq<Byte>, r: Processed) {
    && r.read <= |d| && (r.AtMarker() ==> r.unread != 0)
    && (r.status.HandleRestart? || (unread == 0 && r.unread != 0) ==> r.read >= 2)
  }

  ghost predicate ConsumesWindow(p: Processor) {
    forall calls, unread, d :: Sound(unread, d, p(calls, unread, d))
  }

  /** What may remain unread after the calls so far. */
  predicate LeftUnread(calls: seq<Call>, unread: Byte) {
    if calls == [] then unread == 0 else calls[|calls| - 1].Leaves(unread)
  }

  /** The next call of p. Its window does not end earlier than the one before, and nothing but a custom marker parser
      consumes bytes after it. */
  ghost predicate CallOf(p: Processor, before: seq<Call>, call: Call) {
    && call.result == p(before, call.unread, call.data) && LeftUnread(before, call.unread)
    && (before != [] ==> before[|before| - 1].WindowEnd() <= call.WindowEnd())
    && (if call.result.status.HandleMarkerProcessor? then call.result.read <= call.used else call.result.read == call.used)
  }

  ghost predicate MadeBy(p: Processor, calls: seq<Call>) {
    calls == [] || (MadeBy(p, calls[..|calls| - 1]) && CallOf(p, calls[..|calls| - 1], calls[|calls| - 1]))
  }

  /** A processor that needs more input than its window stops after a marker only at the end of that window or later. */
  ghost predicate MarkersBeyond(calls: seq<Call>) {
    forall i, j :: 0 <= i < j < |calls| && calls[i].result.status.NeedMoreInput? && calls[j].result.AtMarker() ==>
      calls[i].WindowEnd() <= calls[j].start + calls[j].result.read
  }

  ghost predicate ProcessorObeys(p: Processor) {
    && ConsumesWindow(p)
    && forall calls, received, consumed :: Contiguous(calls, received, consumed) && MadeBy(p, calls) ==> MarkersBeyond(calls)
  }

  /** A marker parser consumes bytes of the window only. */
  ghost predicate ParserObeys(p: MarkerParser) {
    forall calls, d :: p(calls, d).1 <= |d|
  }

  /** Every window is a piece of the stream; each call starts where the one before it stopped consuming. */
  ghost predicate Contiguous(calls: seq<Call>, received: seq<Byte>, consumed: nat) {
    && (forall i :: 0 <= i < |calls| ==>
          calls[i].start + |calls[i].data| <= |received| && calls[i].data == received[calls[i].start..calls[i].start + |calls[i].data|])
    && (forall i :: 0 < i < |calls| ==> calls[i].start == calls[i - 1].start + calls[i - 1].used)
    && (calls == [] ==> consumed == 0)
    && (calls != [] ==> calls[0].start == 0 && consumed == calls[|calls| - 1].start + calls[|calls| - 1].used)
  }

  /** The next call of the processor, for all bytes that have been received and not consumed. */
  ghost function NextCall(p: Processor, calls: seq<Call>, unread: Byte, received: seq<Byte>, consumed: nat): Call
    requires consumed <= |received|
  {
    var result := p(calls, unread, received[consumed..]);
    Call(consumed, unread, received[consumed..], result, result.read)
  }

  lemma CallAdded(calls: seq<Call>, received: seq<Byte>, consumed: nat, unread: Byte, result: Processed)
    requires Contiguous(calls, received, consumed) && consumed + result.read <= |received|
    ensures Contiguous(calls + [Call(consumed, unread, received[consumed..], result, result.read)], received, consumed + result.read)
  {
  }

  lemma CallUsedMore(calls: seq<Call>, received: seq<Byte>, consumed: nat, more: nat)
    requires calls != [] && Contiguous(calls, received, consumed)
    ensures var k := |calls| - 1;
            Contiguous(calls[k := calls[k].(used := calls[k].used + more)], received, consumed + more)
  {
  }

  lemma MoreReceived(calls: seq<Call>, received: seq<Byte>, consumed: nat, more: seq<Byte>)
    requires Contiguous(calls, received, consumed)
    ensures Contiguous(calls, received + more, consumed)
  {
    forall i | 0 <= i < |calls|
      ensures calls[i].data == (received + more)[calls[i].start..calls[i].start + |calls[i].data|]
    {
      assert calls[i].start + |calls[i].data| <= |received|;
    }
  }

  /** The unread bytes: all in the source, or in the decoder's buffer with the source's buffer at its end. */
  ghost predicate Stitched(inputBuffer: seq<Byte>, pos: nat, src: seq<Byte>, unread: seq<Byte>) {
    if inputBuffer == [] then pos == 0 && src == unread
    else pos <= |inputBuffer| && inputBuffer[pos..] == unread
         && |src| <= |unread| && src == unread[|unread| - |src|..]
  }

  lemma ProcessorStep(p: Processor, calls: seq<Call>, unread: Byte, d: seq<Byte>)
    requires ProcessorObeys(p)
    ensures Sound(unread, d, p(calls, unread, d))
  {
  }

  /** One more call of the processor. */
  lemma CallMade(p: Processor, calls: seq<Call>, unread: Byte, received: seq<Byte>, consumed: nat)
    requires ProcessorObeys(p) && Contiguous(calls, received, consumed) && consumed <= |received| && MadeBy(p, calls)
    requires LeftUnread(calls, unread)
    ensures var call := NextCall(p, calls, unread, received, consumed);
            consumed + call.used <= |received| && Contiguous(calls + [call], received, consumed + call.used)
            && MadeBy(p, calls + [call]) && MarkersBeyond(calls + [call])
  {
    hide Contiguous, MadeBy, MarkersBeyond, ProcessorObeys;
    ProcessorStep(p, calls, unread, received[consumed..]);
    var call := NextCall(p, calls, unread, received, consumed);
    CallAdded(calls, received, consumed, unread, call.result);
    OneMoreMade(p, calls, unread, received, consumed);
    ObeysTrace(p, calls + [call], received, consumed + call.used);
  }

  lemma OneMoreMade(p: Processor, calls: seq<Call>, unread: Byte, received: seq<Byte>, consumed: nat)
    requires Contiguous(calls, received, consumed) && consumed <= |received| && MadeBy(p, calls) && LeftUnread(calls, unread)
    ensures MadeBy(p, calls + [NextCall(p, calls, unread, received, consumed)])
  {
    var all := calls + [NextCall(p, calls, unread, received, consumed)];
    assert all[..|all| - 1] == calls;
  }

  lemma ObeysTrace(p: Processor, calls: seq<Call>, received: seq<Byte>, consumed: nat)
    requires ProcessorObeys(p) && Contiguous(calls, received, consumed) && MadeBy(p, calls)
    ensures MarkersBeyond(calls)
  {
  }

  lemma ParserStep(p: MarkerParser, calls: seq<Call>, d: seq<Byte>)
    requires ParserObeys(p)
    ensures p(calls, d).1 <= |d|
  {
  }

  lemma WindowIsUnread(inputBuffer: seq<Byte>, pos: nat, src: seq<Byte>, unread: seq<Byte>)
    requires Stitched(inputBuffer, pos, src, unread)
    ensures |src| <= |unread|
    ensures if inputBuffer == [] then pos == 0 && src == unread else pos <= |inputBuffer| && inputBuffer[pos..] == unread
  {
  }

  lemma FirstRefill(inputBuffer: seq<Byte>, pos: nat, src: seq<Byte>, unread: seq<Byte>)
    requires Stitched(inputBuffer, pos, src, unread)
    ensures inputBuffer == [] ==> pos == 0 && Stitched([], 0, src, unread)
  {
  }

  /** The buffers after some bytes of the window have been consumed. */
  function Advanced(inputBuffer: seq<Byte>, pos: nat, src: seq<Byte>, used: nat): (r: (seq<Byte>, nat, seq<Byte>))
    requires if inputBuffer == [] then used <= |src| else pos + used <= |inputBuffer|
  {
    if inputBuffer == [] then (inputBuffer, pos, src[used..])
    else if |inputBuffer| - (pos + used) <= |src| then ([], 0, src[|src| - (|inputBuffer| - (pos + used))..])
    else (inputBuffer, pos + used, src)
  }

  /** They hold what is left of the unread bytes, and only the source does when little enough is left. */
  lemma AdvancedIsStitched(inputBuffer: seq<Byte>, pos: nat, src: seq<Byte>, unread: seq<Byte>, used: nat)
    requires Stitched(inputBuffer, pos, src, unread) && used <= |unread|
    ensures if inputBuffer == [] then used <= |src| else pos + used <= |inputBuffer|
    ensures var (i, p, s) := Advanced(inputBuffer, pos, src, used); Stitched(i, p, s, unread[used..])
    ensures |unread| - used <= |src| || inputBuffer == [] ==> Advanced(inputBuffer, pos, src, used).0 == []
  {
    if inputBuffer != [] {
      assert inputBuffer[pos..][used..] == inputBuffer[pos + used..];
      if |inputBuffer| - (pos + used) <= |src| {
        LastOfLast(unread, |src|, |inputBuffer| - (pos + used));
      } else {
        LastOfRest(unread, used, |src|);
      }
    }
  }

  lemma LastOfLast(bytes: seq<Byte>, n: nat, m: nat)
    requires m <= n <= |bytes|
    ensures bytes[|bytes| - n..][n - m..] == bytes[|bytes| - m..]
  {
  }

  lemma LastOfRest(bytes: seq<Byte>, used: nat, n: nat)
    requires used + n <= |bytes|
    ensures bytes[used..][|bytes| - used - n..] == bytes[|bytes| - n..]
  {
  }

  /** A new buffer of the source is appended to the unread bytes. */
  lemma RefilledIsStitched(inputBuffer: seq<Byte>, pos: nat, src: seq<Byte>, unread: seq<Byte>, chunk: seq<Byte>)
    requires Stitched(inputBuffer, pos, src, unread) && chunk != []
    ensures Stitched((if inputBuffer == [] then src else inputBuffer) + chunk, pos, chunk, unread + chunk)
  {
    var kept := if inputBuffer == [] then src else inputBuffer;
    assert (kept + chunk)[pos..] == kept[pos..] + chunk;
    assert (unread + chunk)[|unread|..] == chunk;
  }

  lemma UnreadAdvances(received: seq<Byte>, consumed: nat, used: nat)
    requires consumed + used <= |received|
    ensures received[consumed..][used..] == received[consumed + used..]
  {
  }

  lemma UnreadGrows(received: seq<Byte>, consumed: nat, chunk: seq<Byte>)
    requires consumed <= |received|
    ensures (received + chunk)[consumed..] == received[consumed..] + chunk
  {
  }

  /** What the source does when it is asked for more: replace its buffer, or report that it cannot. */
  datatype Answer = Deliver(bytes: seq<Byte>) | Refuse

  /** What it does when it is asked the next time; after its last answer it delivers nothing, or refuses. */
  function NextAnswer(answers: seq<Answer>, refills: bool): Answer {
    if answers != [] then answers[0] else if refills then Deliver([]) else Refuse
  }

  function Later(answers: seq<Answer>): seq<Answer> {
    if answers == [] then [] else answers[1..]
  }

  predicate Gives(answer: Answer) {
    answer.Deliver? && answer.bytes != []
  }

  predicate NeverRefuses(answers: seq<Answer>, refills: bool) {
    refills && forall i :: 0 <= i < |answers| ==> answers[i].Deliver?
  }

  function BytesOf(answers: seq<Answer>): seq<Byte> {
    if answers == [] then [] else (if answers[0].Deliver? then answers[0].bytes else []) + BytesOf(answers[1..])
  }

  /** The bytes that the source delivers before it refuses, or delivers nothing, for the first time. */
  function Supply(answers: seq<Answer>): seq<Byte> {
    if answers == [] || !Gives(answers[0]) then [] else answers[0].bytes + Supply(answers[1..])
  }

  /** The source delivers nothing more after an answer that was no delivery, or an empty one. */
  predicate FailsAtEnd(answers: seq<Answer>) {
    forall i, j :: 0 <= i < j < |answers| && Gives(answers[j]) ==> Gives(answers[i])
  }

  lemma {:induction false} NothingGiven(answers: seq<Answer>)
    ensures BytesOf(answers) == [] <==> forall j :: 0 <= j < |answers| ==> !Gives(answers[j])
  {
    if answers != [] {
      NothingGiven(answers[1..]);
      assert forall j :: 0 < j < |answers| ==> answers[j] == answers[1..][j - 1];
    }
  }

  /** Exactly such a source supplies all that it has. */
  lemma {:induction false} SupplyIsAllIff(answers: seq<Answer>)
    ensures |Supply(answers)| <= |BytesOf(answers)|
    ensures Supply(answers) == BytesOf(answers) <==> FailsAtEnd(answers)
  {
    if answers != [] {
      var rest := answers[1..];
      assert forall j :: 0 < j < |answers| ==> answers[j] == rest[j - 1];
      SupplyIsAllIff(rest);
      NothingGiven(rest);
      if Gives(answers[0]) {
        FailsLater(answers);
        assert Supply(answers) == answers[0].bytes + Supply(rest);
        assert BytesOf(answers) == answers[0].bytes + BytesOf(rest);
        if Supply(answers) == BytesOf(answers) {
          assert Supply(rest) == Supply(answers)[|answers[0].bytes|..];
          assert BytesOf(rest) == BytesOf(answers)[|answers[0].bytes|..];
        }
      } else {
        assert BytesOf(answers) == BytesOf(rest);
        FailsFirst(answers);
      }
    }
  }

  lemma FailsLater(answers: seq<Answer>)
    requires answers != [] && Gives(answers[0])
    ensures FailsAtEnd(answers) <==> FailsAtEnd(answers[1..])
  {
    var rest := answers[1..];
    assert forall j :: 0 < j < |answers| ==> answers[j] == rest[j - 1];
    if FailsAtEnd(answers) {
      forall i, j | 0 <= i < j < |rest| && Gives(rest[j])
        ensures Gives(rest[i])
      {
        assert rest[i] == answers[i + 1] && rest[j] == answers[j + 1];
      }
    }
  }

  lemma FailsFirst(answers: seq<Answer>)
    requires answers != [] && !Gives(answers[0])
    ensures FailsAtEnd(answers) <==> forall j :: 0 <= j < |answers[1..]| ==> !Gives(answers[1..][j])
  {
    var rest := answers[1..];
    assert forall j :: 0 < j < |answers| ==> answers[j] == rest[j - 1];
    if FailsAtEnd(answers) {
      forall j | 0 <= j < |rest|
        ensures !Gives(rest[j])
      {
        assert rest[j] == answers[j + 1];
      }
    }
  }

  /** What the source did when it was asked, time after time, and what it has left. */
  predicate Answered(answers: seq<Answer>, refills: bool, asked: seq<Answer>, left: seq<Answer>) {
    if asked == [] then left == answers
    else asked[0] == NextAnswer(answers, refills) && Answered(Later(answers), refills, asked[1..], left)
  }

  /** The input side of the decoder: what the source has left, what it has delivered, and how often it was needed. */
  datatype Intake = Intake(answers: seq<Answer>, received: seq<Byte>, needs: nat)

  /** The source was asked each time that a processor needed more input. It delivered something each time, or each time
      but the last. */
  predicate Supplied(refills: bool, before: Intake, asked: seq<Answer>, after: Intake, failed: bool) {
    && Answered(before.answers, refills, asked, after.answers)
    && after.received == before.received + BytesOf(asked) && after.needs == before.needs + |asked|
    && (failed ==> asked != [] && !Gives(asked[|asked| - 1]))
    && forall i :: 0 <= i < |asked| - (if failed then 1 else 0) ==> Gives(asked[i])
  }

  lemma SuppliedOnce(refills: bool, before: Intake)
    ensures Supplied(refills, before, [], before, false)
    ensures var answer := NextAnswer(before.answers, refills);
            var bytes := if answer.Deliver? then answer.bytes else [];
            Supplied(refills, before, [answer], Intake(Later(before.answers), before.received + bytes, before.needs + 1), !Gives(answer))
            && BytesOf(before.answers) == bytes + BytesOf(Later(before.answers))
  {
    assert [NextAnswer(before.answers, refills)][1..] == [];
  }

  lemma {:induction false} AnsweredAgain(answers: seq<Answer>, refills: bool, asked: seq<Answer>, left: seq<Answer>, more: seq<Answer>, end: seq<Answer>)
    requires Answered(answers, refills, asked, left) && Answered(left, refills, more, end)
    ensures Answered(answers, refills, asked + more, end)
    decreases |asked|
  {
    hide NextAnswer, Later;
    if asked == [] {
      assert asked + more == more;
    } else {
      AnsweredAgain(Later(answers), refills, asked[1..], left, more, end);
      assert (asked + more)[1..] == asked[1..] + more;
    }
  }

  lemma {:induction false} BytesOfMore(asked: seq<Answer>, more: seq<Answer>)
    ensures BytesOf(asked + more) == BytesOf(asked) + BytesOf(more)
  {
    if asked == [] {
      assert asked + more == more;
    } else {
      BytesOfMore(asked[1..], more);
      assert (asked + more)[1..] == asked[1..] + more;
    }
  }

  lemma SuppliedAgain(refills: bool, before: Intake, asked: seq<Answer>, between: Intake, more: seq<Answer>, after: Intake, failed: bool)
    requires Supplied(refills, before, asked, between, false) && Supplied(refills, between, more, after, failed)
    ensures Supplied(refills, before, asked + more, after, failed)
  {
    hide Answered, BytesOf;
    AnsweredAgain(before.answers, refills, asked, between.answers, more, after.answers);
    BytesOfMore(asked, more);
  }

  /** Nothing of the supply is passed over, and the source fails only when there is nothing left of it. */
  lemma {:induction false} SupplyIsKept(refills: bool, before: Intake, asked: seq<Answer>, after: Intake, failed: bool)
    requires Supplied(refills, before, asked, after, failed)
    ensures before.received + Supply(before.answers) == after.received + if failed then [] else Supply(after.answers)
    decreases |asked|
  {
    if asked != [] {
      var answer := NextAnswer(before.answers, refills);
      if Gives(answer) {
        SupplyIsKept(refills, Intake(Later(before.answers), before.received + answer.bytes, before.needs + 1), asked[1..], after, failed);
      } else {
        assert |asked| == 1;
      }
    }
  }

  datatype RefillResult = Refilled | CannotRefill | NothingLeft

  function ResultOf(answer: Answer): RefillResult {
    match answer
    case Refuse => CannotRefill
    case Deliver(bytes) => if bytes == [] then NothingLeft else Refilled
  }

  /** The unread bytes end with the buffer of the source: it holds all of them if there are no more than that. */
  predicate AllInSource(inputBuffer: seq<Byte>, pos: nat, src: seq<Byte>) {
    inputBuffer == [] || |inputBuffer| - pos <= |src|
  }

  /** When a refill fails, the decoder forgets its own buffer; what is left is the unread input exactly under this condition. */
  lemma FailedRefillKeepsInput(inputBuffer: seq<Byte>, pos: nat, src: seq<Byte>, unread: seq<Byte>)
    requires Stitched(inputBuffer, pos, src, unread)
    ensures Stitched([], 0, src, unread) <==> AllInSource(inputBuffer, pos, src)
    ensures (AllInSource(inputBuffer, pos, src) <==> |src| == |unread|) && (inputBuffer == [] ==> AllInSource(inputBuffer, pos, src))
    ensures |src| <= |unread| && src == unread[|unread| - |src|..]
  {
  }

  /** All calls so far were made by the processor; while the decoder's buffer is in use, the buffer of the source is what
      was received after the call `needed`, which needed more input. */
  ghost predicate Recorded(p: Processor, calls: seq<Call>, unread: Byte, received: seq<Byte>, consumed: nat,
                           inputBuffer: seq<Byte>, src: seq<Byte>, needed: nat) {
    && Contiguous(calls, received, consumed) && MadeBy(p, calls) && LeftUnread(calls, unread)
    && (calls != [] ==> calls[|calls| - 1].WindowEnd() <= |received|)
    && (inputBuffer != [] ==> needed < |calls| && calls[needed].result.status.NeedMoreInput? && calls[needed].WindowEnd() + |src| == |received|)
  }

  /** One more call. If it stops after a marker, then the source holds what is left. */
  lemma RecordedCall(p: Processor, calls: seq<Call>, unread: Byte, received: seq<Byte>, consumed: nat,
                     inputBuffer: seq<Byte>, src: seq<Byte>, needed: nat, next: seq<Byte>)
    requires ProcessorObeys(p) && consumed <= |received| && Recorded(p, calls, unread, received, consumed, inputBuffer, src, needed)
    ensures var call := NextCall(p, calls, unread, received, consumed);
            var pos, all := call.used, calls + [call];
            && consumed + pos <= |received| && Sound(unread, received[consumed..], call.result)
            && Recorded(p, all, call.result.unread, received, consumed + pos, inputBuffer, src, needed)
            && Recorded(p, all, call.result.unread, received, consumed + pos, [], next, needed)
            && (inputBuffer != [] && call.result.AtMarker() ==> |received| - (consumed + pos) <= |src|)
  {
    CallMade(p, calls, unread, received, consumed);
    ProcessorStep(p, calls, unread, received[consumed..]);
    hide ProcessorObeys, Contiguous, MadeBy;
  }

  /** What a call of the processor makes of the buffers. */
  lemma BuffersAfterCall(p: Processor, calls: seq<Call>, unread: Byte, received: seq<Byte>, consumed: nat,
                         inputBuffer: seq<Byte>, bufferPos: nat, src: seq<Byte>, needed: nat)
    requires ProcessorObeys(p) && consumed <= |received| && Recorded(p, calls, unread, received, consumed, inputBuffer, src, needed)
    requires Stitched(inputBuffer, bufferPos, src, received[consumed..])
    ensures var call := NextCall(p, calls, unread, received, consumed);
            var pos := call.used;
            && consumed + pos <= |received| && Sound(unread, received[consumed..], call.result)
            && (if inputBuffer == [] then pos <= |src| else bufferPos + pos <= |inputBuffer|)
            && var (i, b, s) := Advanced(inputBuffer, bufferPos, src, pos);
            && Stitched(i, b, s, received[consumed + pos..])
            && Recorded(p, calls + [call], call.result.unread, received, consumed + pos, i, s, needed)
            && (call.result.AtMarker() || inputBuffer == [] ==> i == [])
            && (i != [] ==> s == src && !AllInSource(i, b, s)) && |s| <= |src|
  {
    hide ProcessorObeys, Recorded, Stitched;
    var bytes := received[consumed..];
    var call := NextCall(p, calls, unread, received, consumed);
    ProcessorStep(p, calls, unread, bytes);
    WindowIsUnread(inputBuffer, bufferPos, src, bytes);
    AdvancedIsStitched(inputBuffer, bufferPos, src, bytes, call.used);
    UnreadAdvances(received, consumed, call.used);
    RecordedCall(p, calls, unread, received, consumed, inputBuffer, src, needed, Advanced(inputBuffer, bufferPos, src, call.used).2);
  }

  lemma RecordedRefill(p: Processor, calls: seq<Call>, unread: Byte, received: seq<Byte>, consumed: nat,
                       inputBuffer: seq<Byte>, src: seq<Byte>, needed: nat, next: seq<Byte>, chunk: seq<Byte>)
    requires Recorded(p, calls, unread, received, consumed, inputBuffer, src, needed) && calls != []
    requires calls[|calls| - 1].result.status.NeedMoreInput? && calls[|calls| - 1].WindowEnd() == |received|
    ensures Recorded(p, calls, unread, received, consumed, [], src, needed)
    ensures Recorded(p, calls, unread, received + chunk, consumed, next, chunk, |calls| - 1)
  {
    MoreReceived(calls, received, consumed, chunk);
    hide Contiguous, MadeBy;
  }

  /** What a refill makes of the buffers, and a refusal. */
  lemma BuffersAfterRefill(p: Processor, calls: seq<Call>, unread: Byte, received: seq<Byte>, consumed: nat,
                           inputBuffer: seq<Byte>, bufferPos: nat, src: seq<Byte>, needed: nat, chunk: seq<Byte>)
    requires consumed <= |received| && Recorded(p, calls, unread, received, consumed, inputBuffer, src, needed)
    requires Stitched(inputBuffer, bufferPos, src, received[consumed..])
    requires calls != [] && calls[|calls| - 1].result.status.NeedMoreInput? && calls[|calls| - 1].WindowEnd() == |received|
    ensures Stitched([], 0, src, received[consumed..]) <==> AllInSource(inputBuffer, bufferPos, src)
    ensures Recorded(p, calls, unread, received, consumed, [], src, needed)
    ensures var kept := if inputBuffer == [] then src else inputBuffer;
            chunk != [] ==>
              && Stitched(kept + chunk, bufferPos, chunk, (received + chunk)[consumed..])
              && Recorded(p, calls, unread, received + chunk, consumed, kept + chunk, chunk, |calls| - 1)
  {
    hide Recorded, Stitched, AllInSource;
    var kept := if inputBuffer == [] then src else inputBuffer;
    FailedRefillKeepsInput(inputBuffer, bufferPos, src, received[consumed..]);
    RecordedRefill(p, calls, unread, received, consumed, inputBuffer, src, needed, kept + chunk, chunk);
    if chunk != [] {
      RefilledIsStitched(inputBuffer, bufferPos, src, received[consumed..], chunk);
      UnreadGrows(received, consumed, chunk);
    }
  }

  lemma RecordedParse(p: Processor, calls: seq<Call>, unread: Byte, received: seq<Byte>, consumed: nat,
                      src: seq<Byte>, needed: nat, next: seq<Byte>, more: nat)
    requires Recorded(p, calls, unread, received, consumed, [], src, needed)
    requires calls != [] && calls[|calls| - 1].result.status.HandleMarkerProcessor?
    ensures var k := |calls| - 1;
            var all := calls[k := calls[k].(used := calls[k].used + more)];
            Recorded(p, all, unread, received, consumed + more, [], next, needed)
            && Recorded(p, all, 0, received, consumed + more, [], next, needed)
  {
    CallUsedMore(calls, received, consumed, more);
    SameCalls(p, calls, |calls| - 1, calls[|calls| - 1].used + more);
    hide Contiguous, MadeBy;
  }

  lemma SameCalls(p: Processor, calls: seq<Call>, k: nat, used: nat)
    requires MadeBy(p, calls) && k + 1 == |calls| && calls[k].result.status.HandleMarkerProcessor? && calls[k].used <= used
    ensures MadeBy(p, calls[k := calls[k].(used := used)])
  {
    assert calls[k := calls[k].(used := used)][..k] == calls[..k];
  }

  lemma RecordedAppend(p: Processor, calls: seq<Call>, unread: Byte, received: seq<Byte>, consumed: nat,
                       src: seq<Byte>, needed: nat, bytes: seq<Byte>)
    requires Recorded(p, calls, unread, received, consumed, [], src, needed)
    ensures Recorded(p, calls, unread, received + bytes, consumed, [], src + bytes, needed)
  {
    MoreReceived(calls, received, consumed, bytes);
    hide Contiguous, MadeBy;
  }

  lemma RecordedHandled(p: Processor, calls: seq<Call>, unread: Byte, received: seq<Byte>, consumed: nat,
                        src: seq<Byte>, needed: nat)
    requires Recorded(p, calls, unread, received, consumed, [], src, needed) && calls != [] && calls[|calls| - 1].result.AtMarker()
    ensures Recorded(p, calls, 0, received, consumed, [], src, needed)
  {
    hide Contiguous, MadeBy;
  }

  // ---------------------------------------------------------------- the restart markers that were read

  function Restarts(calls: seq<Call>): nat {
    if calls == [] then 0 else
      Restarts(calls[..|calls| - 1]) + if calls[|calls| - 1].result.status.HandleRestart? then 1 else 0
  }

  /** Each of them was the expected one. */
  predicate Expected(calls: seq<Call>) {
    calls == [] || (Expected(calls[..|calls| - 1]) && RestartExpected(calls[..|calls| - 1], calls[|calls| - 1]))
  }

  predicate RestartExpected(before: seq<Call>, call: Call) {
    call.result.status.HandleRestart? ==> call.result.unread == 0xD0 + Restarts(before) % 8
  }

  /** How often a processor needed more input. */
  function Needs(calls: seq<Call>): nat {
    if calls == [] then 0 else
      Needs(calls[..|calls| - 1]) + if calls[|calls| - 1].result.status.NeedMoreInput? then 1 else 0
  }

  /** Between two calls more input was needed, or a marker was handled. */
  predicate PassedOver(calls: seq<Call>, start: nat) {
    forall i :: start <= i < |calls| - 1 ==>
      calls[i].result.status.NeedMoreInput? || (calls[i].result.AtMarker() && calls[i + 1].unread == 0)
  }

  lemma NonePassed(calls: seq<Call>)
    ensures PassedOver(calls, |calls|)
  {
  }

  lemma PassedAgain(before: seq<Call>, calls: seq<Call>, start: nat)
    requires PassedOver(before, start) && before < calls && |calls| == |before| + 1
    requires |before| > start ==>
      var result := before[|before| - 1].result;
      result.status.NeedMoreInput? || (result.AtMarker() && calls[|before|].unread == 0)
    ensures PassedOver(calls, start)
  {
    forall i | start <= i < |calls| - 1
      ensures calls[i].result.status.NeedMoreInput? || (calls[i].result.AtMarker() && calls[i + 1].unread == 0)
    {
      assert calls[i] == before[i] && (i + 1 < |before| ==> calls[i + 1] == before[i + 1]);
    }
  }

  lemma OneMoreCall(calls: seq<Call>, call: Call)
    ensures Restarts(calls + [call]) == Restarts(calls) + if call.result.status.HandleRestart? then 1 else 0
    ensures Expected(calls + [call]) <==> Expected(calls) && RestartExpected(calls, call)
    ensures Needs(calls + [call]) == Needs(calls) + if call.result.status.NeedMoreInput? then 1 else 0
  {
    assert (calls + [call])[..|calls|] == calls;
  }

  lemma RestartsOfParsed(calls: seq<Call>, used: nat)
    requires calls != []
    ensures var k := |calls| - 1;
            var all := calls[k := calls[k].(used := used)];
            Restarts(all) == Restarts(calls) && (Expected(all) <==> Expected(calls)) && Needs(all) == Needs(calls)
  {
    var k := |calls| - 1;
    assert calls[k := calls[k].(used := used)][..k] == calls[..k];
  }

  class Decoder {
    const process: Processor
    const parseMarker: MarkerParser
    const refills: bool               // what the source does after its last answer: deliver nothing, or refuse
    var inputBuffer: seq<Byte>
    var inputBufferPos: nat
    var srcBuffer: seq<Byte>          // from next_input_byte on
    var answers: seq<Answer>          // what the source will do
    var nextRestartMarker: nat
    var unreadMarker: Byte
    var calls: seq<Call>              // stands for the state of the processors
    var consumed: nat
    ghost var received: seq<Byte>
    ghost var delivered: bool         // the source has replaced its buffer before
    ghost var needed: nat             // the last call before it did so

    constructor (process: Processor, parseMarker: MarkerParser, refills: bool, first: seq<Byte>, answers: seq<Answer>)
      requires ProcessorObeys(process) && ParserObeys(parseMarker)
      ensures Valid() && received == first && consumed == 0 && this.answers == answers && this.refills == refills && !delivered
      ensures this.process == process && calls == [] && InStep()
    {
      this.process, this.parseMarker, this.refills := process, parseMarker, refills;
      inputBuffer, inputBufferPos, srcBuffer, this.answers := [], 0, first, answers;
      nextRestartMarker, unreadMarker, calls, consumed := 0, 0, [], 0;
      received, delivered, needed := first, false, 0;
    }

    /** Nothing is lost and nothing is seen again, whatever the processors have done so far. */
    ghost predicate Valid()
      reads this
    {
      && ProcessorObeys(process) && ParserObeys(parseMarker)
      && consumed <= |received| && Stitched(inputBuffer, inputBufferPos, srcBuffer, received[consumed..])
      && (!delivered ==> inputBuffer == []) && nextRestartMarker < 8
      && Recorded(process, calls, unreadMarker, received, consumed, inputBuffer, srcBuffer, needed)
    }

    /** Every restart marker so far was the expected one. */
    predicate InStep()
      reads this`calls, this`nextRestartMarker
    {
      nextRestartMarker == Restarts(calls) % 8 && Expected(calls)
    }

    /** Every one before the last call was. */
    predicate WasInStep()
      reads this`calls, this`nextRestartMarker
    {
      calls != [] && var last := |calls| - 1; nextRestartMarker == Restarts(calls[..last]) % 8 && Expected(calls[..last])
    }

    predicate AtRestart()
      reads this`calls
    {
      calls != [] && calls[|calls| - 1].result.status.HandleRestart?
    }

    /** A restart marker was read that is not the expected one. */
    predicate OutOfStep()
      reads this`calls
    {
      calls != [] && var last := |calls| - 1; Expected(calls[..last]) && !RestartExpected(calls[..last], calls[last])
    }

    /** A suspended source is given more bytes by the application between two calls. */
    method Append(bytes: seq<Byte>)
      requires Valid() && inputBuffer == []
      modifies this`srcBuffer, this`received
      ensures Valid() && received == old(received) + bytes
    {
      hide ProcessorObeys, ParserObeys, Recorded;
      RecordedAppend(process, calls, unreadMarker, received, consumed, srcBuffer, needed, bytes);
      srcBuffer, received := srcBuffer + bytes, received + bytes;
    }

    /** The consumed bytes are dropped; the decoder's buffer is given up as soon as the source holds the rest. */
    method Advance(pos: nat)
      requires if inputBuffer == [] then pos <= |srcBuffer| else inputBufferPos + pos <= |inputBuffer|
      modifies this`inputBuffer, this`inputBufferPos, this`srcBuffer
      ensures (inputBuffer, inputBufferPos, srcBuffer) == old(Advanced(inputBuffer, inputBufferPos, srcBuffer, pos))
    {
      if inputBuffer == [] {
        srcBuffer := srcBuffer[pos..];
      } else {
        inputBufferPos := inputBufferPos + pos;
        var bytesLeft := |inputBuffer| - inputBufferPos;
        if bytesLeft <= |srcBuffer| {
          srcBuffer := srcBuffer[|srcBuffer| - bytesLeft..];
          inputBuffer := [];
          inputBufferPos := 0;
        }
      }
    }

    /** Nothing has been consumed since the last call. */
    ghost predicate JustCalled()
      reads this`calls, this`received, this`consumed
    {
      calls != [] && consumed <= |received| && var last := calls[|calls| - 1];
      last.used == last.result.read <= |last.data| && last.data[last.used..] == received[consumed..]
    }

    lemma CallJustMade(before: seq<Call>, unread: Byte, start: nat)
      requires start <= |received|
      requires var call := NextCall(process, before, unread, received, start);
               Sound(unread, call.data, call.result) && calls == before + [call] && consumed == start + call.used
      ensures JustCalled()
    {
      UnreadAdvances(received, start, consumed - start);
    }

    /** One call of the processor, and the bytes it consumed taken from whichever buffer holds them. After a marker the
        decoder's buffer is empty: this is what the two assertions of the source state. */
    method Process() returns (status: Status)
      requires Valid()
      modifies this
      ensures Valid() && received == old(received) && old(consumed) <= consumed && answers == old(answers) && delivered == old(delivered)
      ensures var call := NextCall(process, old(calls), old(unreadMarker), received, old(consumed));
              && calls == old(calls) + [call] && status == call.result.status && unreadMarker == call.result.unread
              && consumed == old(consumed) + call.used && Sound(old(unreadMarker), call.data, call.result)
              && call.WindowEnd() == |received| && (call.result.AtMarker() ==> inputBuffer == [] && unreadMarker != 0)
              && (status.HandleRestart? || (old(unreadMarker) == 0 && unreadMarker != 0) ==> call.used >= 2)
      ensures old(InStep()) ==> WasInStep() && (AtRestart() || InStep())
      ensures inputBuffer != [] ==> srcBuffer == old(srcBuffer) && !AllInSource(inputBuffer, inputBufferPos, srcBuffer)
      ensures |srcBuffer| <= |old(srcBuffer)| && calls[|old(calls)|].unread == old(unreadMarker)
    {
      hide ProcessorObeys, ParserObeys, Recorded, Stitched, Advanced, AllInSource, WasInStep, Restarts, Expected;
      WindowIsUnread(inputBuffer, inputBufferPos, srcBuffer, received[consumed..]);
      BuffersAfterCall(process, calls, unreadMarker, received, consumed, inputBuffer, inputBufferPos, srcBuffer, needed);
      var data := if inputBuffer == [] then srcBuffer else inputBuffer[inputBufferPos..];
      var result := process(calls, unreadMarker, data);
      Advance(result.read);
      calls := calls + [Call(consumed, unreadMarker, data, result, result.read)];
      consumed := consumed + result.read;
      unreadMarker := result.unread;
      status := result.status;
      OneMoreInStep(old(calls));
    }

    lemma OneMoreInStep(before: seq<Call>)
      requires calls != [] && before == calls[..|calls| - 1]
      ensures nextRestartMarker == Restarts(before) % 8 && Expected(before) ==> WasInStep() && (AtRestart() || InStep())
    {
      OneMoreCall(before, calls[|calls| - 1]);
      assert before + [calls[|calls| - 1]] == calls;
    }

    /** The source replaces its buffer, or reports that it cannot. */
    method FillInputBuffer() returns (ok: bool)
      modifies this`srcBuffer, this`answers, this`received
      ensures answers == Later(old(answers)) && (ok <==> NextAnswer(old(answers), refills).Deliver?)
      ensures !ok ==> srcBuffer == old(srcBuffer) && received == old(received)
      ensures ok ==> srcBuffer == NextAnswer(old(answers), refills).bytes && received == old(received) + srcBuffer
    {
      if answers == [] {
        if refills {
          srcBuffer := [];
        }
        return refills;
      }
      var answer := answers[0];
      answers := answers[1..];
      if answer == Refuse {
        return false;
      }
      srcBuffer, received := answer.bytes, received + answer.bytes;
      return true;
    }

    /** More input: unread bytes move to the decoder's buffer, and the new buffer of the source is appended. If there
        is none, the decoder's buffer is forgotten, and nothing is lost exactly if the source has all unread bytes. */
    method Refill() returns (r: RefillResult)
      requires Valid() && calls != []
      requires calls[|calls| - 1].result.status.NeedMoreInput? && calls[|calls| - 1].WindowEnd() == |received|
      modifies this`inputBuffer, this`inputBufferPos, this`srcBuffer, this`answers, this`received, this`delivered, this`needed
      ensures answers == Later(old(answers))
      ensures r == ResultOf(NextAnswer(old(answers), refills))
      ensures r == Refilled ==> Valid() && delivered
      ensures r == Refilled ==> srcBuffer == NextAnswer(old(answers), refills).bytes && received == old(received) + srcBuffer
      ensures r == CannotRefill ==> (Valid() <==> AllInSource(old(inputBuffer), old(inputBufferPos), old(srcBuffer)))
      ensures r == CannotRefill ==> inputBuffer == [] && received == old(received) && srcBuffer == old(srcBuffer) && delivered == old(delivered)
      ensures r == NothingLeft ==> received == old(received)
    {
      hide ProcessorObeys, ParserObeys, Recorded, Stitched, AllInSource;
      ghost var chunk := if NextAnswer(answers, refills).Deliver? then NextAnswer(answers, refills).bytes else [];
      FirstRefill(inputBuffer, inputBufferPos, srcBuffer, received[consumed..]);
      BuffersAfterRefill(process, calls, unreadMarker, received, consumed, inputBuffer, inputBufferPos, srcBuffer, needed, chunk);
      if inputBuffer == [] {
        inputBuffer := srcBuffer;
      }
      var ok := FillInputBuffer();
      if !ok {
        inputBuffer := [];
        inputBufferPos := 0;
        return CannotRefill;
      }
      delivered, needed := true, |calls| - 1;
      if srcBuffer == [] {
        return NothingLeft;
      }
      inputBuffer := inputBuffer + srcBuffer;
      return Refilled;
    }

    /** A restart marker: the expected one is passed over; after any other the scan is given up. */
    method PassRestart() returns (ok: bool)
      requires Valid() && calls != [] && calls[|calls| - 1].result.status.HandleRestart? && inputBuffer == []
      modifies this`nextRestartMarker, this`unreadMarker
      ensures Valid() && nextRestartMarker == (old(nextRestartMarker) + 1) % 8
      ensures ok <==> old(unreadMarker) == 0 || old(unreadMarker) == 0xD0 + old(nextRestartMarker)
      ensures unreadMarker == if ok then 0 else old(unreadMarker)
      ensures old(WasInStep()) && old(unreadMarker) == calls[|calls| - 1].result.unread != 0 ==> if ok then InStep() else OutOfStep()
    {
      hide ProcessorObeys, ParserObeys, Recorded, Stitched, Restarts, Expected;
      assert calls[..|calls| - 1] + [calls[|calls| - 1]] == calls;
      OneMoreCall(calls[..|calls| - 1], calls[|calls| - 1]);
      RecordedHandled(process, calls, unreadMarker, received, consumed, srcBuffer, needed);
      if unreadMarker == 0xd0 + nextRestartMarker {
        unreadMarker := 0;
      }
      nextRestartMarker := (nextRestartMarker + 1) % 8;
      ok := unreadMarker == 0;
    }

    /** A custom marker parser reads from the source itself, which by then holds all unread bytes. */
    method ParseMarker() returns (ok: bool)
      requires Valid() && JustCalled() && inputBuffer == [] && calls[|calls| - 1].result.status.HandleMarkerProcessor?
      modifies this`calls, this`srcBuffer, this`consumed, this`unreadMarker
      ensures Valid() && unreadMarker == if ok then 0 else old(unreadMarker)
      ensures consumed >= old(consumed) && (ok, (consumed - old(consumed)) as nat) == parseMarker(old(calls), old(received[consumed..]))
      ensures Needs(calls) == Needs(old(calls)) && calls != [] && (!ok ==> ParserFailed())
      ensures var k := |old(calls)| - 1;
              calls == old(calls)[k := old(calls)[k].(used := old(calls)[k].used + consumed - old(consumed))]
      ensures old(InStep()) ==> InStep()
    {
      hide ProcessorObeys, ParserObeys, Recorded, Stitched, Restarts, Expected, Needs;
      WindowIsUnread(inputBuffer, inputBufferPos, srcBuffer, received[consumed..]);
      ParserStep(parseMarker, calls, srcBuffer);
      var (r, used) := parseMarker(calls, srcBuffer);
      ok := r;
      AdvancedIsStitched(inputBuffer, inputBufferPos, srcBuffer, received[consumed..], used);
      UnreadAdvances(received, consumed, used);
      RecordedParse(process, calls, unreadMarker, received, consumed, srcBuffer, needed, srcBuffer[used..], used);
      RestartsOfParsed(calls, calls[|calls| - 1].used + used);
      ghost var all := calls;
      calls := calls[|calls| - 1 := calls[|calls| - 1].(used := calls[|calls| - 1].used + used)];
      assert calls[|calls| - 1 := calls[|calls| - 1].(used := calls[|calls| - 1].result.read)] == all;
      srcBuffer := srcBuffer[used..];
      consumed := consumed + used;
      if ok {
        unreadMarker := 0;
      }
    }

    /** The calls so far, whatever has become of the buffers. */
    ghost predicate Traced()
      reads this
    {
      Contiguous(calls, received, consumed) && MadeBy(process, calls)
    }

    /** The marker parser failed on what the last call left. */
    ghost predicate ParserFailed()
      requires calls != []
      reads this`calls
    {
      var k := |calls| - 1;
      var read := calls[k].result.read;
      read <= |calls[k].data| && !parseMarker(calls[k := calls[k].(used := read)], calls[k].data[read..]).0
    }

    /** The last call needed more input. */
    predicate AtNeed()
      reads this`calls
    {
      calls != [] && calls[|calls| - 1].result.status.NeedMoreInput?
    }

    ghost function Taken(): Intake
      reads this`answers, this`received, this`calls
    {
      Intake(answers, received, Needs(calls))
    }

    /** What has been received, and what the source delivers before it fails to do so. */
    ghost function Input(): seq<Byte>
      reads this`answers, this`received
    {
      received + Supply(answers)
    }

    /** If the last call needed more input: the source was asked for it, and refused or delivered nothing. */
    ghost predicate Asked(r: Outcome, asked: seq<Answer>)
      reads this`calls
    {
      AtNeed() ==> asked != [] && asked[|asked| - 1] == if r == EmptyInput then Deliver([]) else Refuse
    }

    /** How ConsumeInput ended, by the last call that it made, for all bytes that had been received. */
    ghost predicate Explains(r: Outcome)
      reads this`calls, this`received
    {
      calls != [] && calls[|calls| - 1].WindowEnd() == |received| && var status := calls[|calls| - 1].result.status;
      match r
      case EmptyInput => status.NeedMoreInput?
      case Returned(Suspended) => (status.NeedMoreInput? || status.Suspended? || (status.HandleMarkerProcessor? && ParserFailed()))
      case Returned(ScanCompleted) => (status.ScanCompleted? || status.HandleRestart?)
      case Returned(s) => s == status && !status.NeedMoreInput? && !status.HandleMarkerProcessor? && !status.HandleRestart?
    }

    /** The source never refuses. */
    ghost predicate AlwaysRefills()
      reads this`answers
    {
      NeverRefuses(answers, refills)
    }

    /** A restart marker, or a marker for a custom marker parser; it is handled, or ends the loop. */
    method HandleMarker() returns (done: bool, r: Outcome)
      requires Valid() && JustCalled() && calls[|calls| - 1].result.AtMarker() && inputBuffer == []
      requires calls[|calls| - 1].WindowEnd() == |received| && unreadMarker == calls[|calls| - 1].result.unread != 0
      modifies this`calls, this`srcBuffer, this`consumed, this`unreadMarker, this`nextRestartMarker
      ensures Valid() && consumed >= old(consumed) && Needs(calls) == Needs(old(calls)) && calls != []
      ensures var k := |old(calls)| - 1; calls == old(calls)[k := old(calls)[k].(used := old(calls)[k].used + consumed - old(consumed))]
      ensures old(WasInStep()) && (calls[|calls| - 1].result.status.HandleMarkerProcessor? ==> old(InStep())) ==>
        if done && AtRestart() then OutOfStep() else InStep()
      ensures if done then Explains(r) && r.Returned? else unreadMarker == 0
    {
      hide ProcessorObeys, ParserObeys, Recorded, Stitched, Restarts, Expected, Needs, Valid, ParserFailed, InStep, WasInStep, OutOfStep;
      done, r := false, EmptyInput;
      if calls[|calls| - 1].result.status.HandleRestart? {
        var ok := PassRestart();
        if !ok {
          done, r := true, Returned(ScanCompleted);
        }
      } else {
        var ok := ParseMarker();
        if !ok {
          done, r := true, Returned(Suspended);
        }
      }
    }

    /** The source is asked for more input; a refused refill may lose bytes. */
    method GetInput() returns (done: bool, r: Outcome, ghost lost: nat, ghost answer: Answer)
      requires Valid() && AtNeed() && calls[|calls| - 1].WindowEnd() == |received|
      modifies this`inputBuffer, this`inputBufferPos, this`srcBuffer, this`answers, this`received, this`delivered, this`needed
      ensures consumed + lost <= |received| && Traced()
      ensures answer == NextAnswer(old(answers), refills) && answers == Later(old(answers)) && (done <==> !Gives(answer))
      ensures received == old(received) + if answer.Deliver? then answer.bytes else []
      ensures done ==> r == (if answer == Refuse then Returned(Suspended) else EmptyInput) && received == old(received)
      ensures !done ==> Valid() && delivered && |received| + 2 * |BytesOf(answers)| < old(|received| + 2 * |BytesOf(answers)|)
      ensures done && r.Returned? ==> (Valid() <==> lost == 0) && delivered == old(delivered)
      ensures lost > 0 ==> r == Returned(Suspended) && done && delivered && inputBuffer == [] && srcBuffer == received[consumed + lost..]
      ensures old(AlwaysRefills()) ==> AlwaysRefills() && answer.Deliver?
    {
      hide ProcessorObeys, ParserObeys, Recorded, Stitched, AllInSource, BytesOf, Supplied, Contiguous, MadeBy;
      lost := 0;
      answer := NextAnswer(answers, refills);
      ValidIsTraced();
      ghost var unread := received[consumed..];
      FailedRefillKeepsInput(inputBuffer, inputBufferPos, srcBuffer, unread);
      SuppliedOnce(refills, Taken());
      var more := Refill();
      done, r := more != Refilled, if more == CannotRefill then Returned(Suspended) else EmptyInput;
      if more == CannotRefill {
        lost := |unread| - |srcBuffer|;
        UnreadAdvances(received, consumed, lost);
      } else if more == Refilled {
        ValidIsTraced();
      }
    }

    /** One pass of the loop of ConsumeInput. It ends the loop, or consumes input, handles a marker, or is given input. */
    method Pass() returns (done: bool, r: Outcome, ghost lost: nat, ghost asked: seq<Answer>)
      requires Valid()
      modifies this
      ensures consumed >= old(consumed) && consumed + lost <= |received| && Traced()
      ensures old(calls) < calls
      ensures old(InStep()) ==> if done && r == Returned(ScanCompleted) && AtRestart() then OutOfStep() else InStep()
      ensures old(AlwaysRefills()) ==> AlwaysRefills()
      ensures !done ==> Valid() && lost == 0 && (!delivered ==> !old(delivered) && received == old(received))
      ensures !done ==> old(Pending()) > Pending()
      ensures done ==> (r.Returned? ==> (Valid() <==> lost == 0)) && Explains(r)
      ensures done && r.Returned? ==> received == old(received) && delivered == old(delivered)
      ensures Supplied(refills, old(Taken()), asked, Taken(), done && AtNeed()) && (done ==> Asked(r, asked))
      ensures !done ==> AtNeed() || (calls[|calls| - 1].result.AtMarker() && unreadMarker == 0)
      ensures done && old(AlwaysRefills()) && r == Returned(Suspended) ==> !AtNeed()
      ensures |calls| == |old(calls)| + 1 && calls[|old(calls)|].unread == old(unreadMarker)
      ensures lost > 0 ==> r == Returned(Suspended) && inputBuffer == [] && srcBuffer == received[consumed + lost..]
      ensures lost > 0 ==> delivered && !old(AlwaysRefills())
      ensures r == EmptyInput ==> lost == 0
    {
      hide Valid, Traced, Sound, NextCall, BytesOf, Supplied, Needs, InStep, WasInStep, OutOfStep, ParserFailed, JustCalled, NeverRefuses, Restarts, Expected;
      ValidIsTraced();
      var status := Process();
      ValidIsTraced();
      OneMoreCall(old(calls), calls[|calls| - 1]);
      CallJustMade(old(calls), old(unreadMarker), old(consumed));
      done, r, lost, asked := false, EmptyInput, 0, [];
      SuppliedOnce(refills, old(Taken()));
      match status
      case HandleRestart | HandleMarkerProcessor =>
        done, r := HandleMarker();
        ValidIsTraced();
      case NeedMoreInput =>
        ghost var answer;
        done, r, lost, answer := GetInput();
        asked := [answer];
      case _ =>
        done, r := true, Returned(status);
    }

    /** What the passes use up: input, also that which the source still has, and the unread marker. */
    ghost function Pending(): int
      reads this
    {
      |received| - consumed + 2 * |BytesOf(answers)| + if unreadMarker == 0 then 0 else 1
    }

    /** The loop of ConsumeInput; `ahead` says that input would get ahead of output in streaming mode. The source may
        refill and refuse as it likes: bytes are lost exactly if it refuses while the decoder's buffer is in use. */
    method ConsumeInput(ahead: bool) returns (r: Outcome, ghost lost: nat, ghost asked: seq<Answer>)
      requires Valid()
      modifies this
      ensures r.Returned? ==> (Valid() <==> lost == 0)
      ensures consumed >= old(consumed) && consumed + lost <= |received|
      ensures lost > 0 ==> r == Returned(Suspended) && inputBuffer == [] && srcBuffer == received[consumed + lost..]
      ensures lost > 0 ==> delivered && !old(AlwaysRefills())
      ensures old(AlwaysRefills()) ==> AlwaysRefills()
      ensures r.Returned? && !delivered ==> received == old(received) && srcBuffer == received[consumed..]
      ensures r == EmptyInput ==> lost == 0
      ensures Traced() && (if ahead then calls == old(calls) else old(calls) < calls && Explains(r))
      ensures old(InStep()) ==> if !ahead && r == Returned(ScanCompleted) && AtRestart() then OutOfStep() else InStep()
      ensures Supplied(refills, old(Taken()), asked, Taken(), !ahead && AtNeed())
      ensures if ahead then asked == [] else Asked(r, asked) && PassedOver(calls, |old(calls)|)
      ensures !ahead && old(AlwaysRefills()) && r == Returned(Suspended) ==>
        var status := calls[|calls| - 1].result.status; status.Suspended? || (status.HandleMarkerProcessor? && ParserFailed())
    {
      hide Valid, Traced, Supplied, Taken, PassedOver, InStep, OutOfStep, Pending, ParserFailed;
      ValidIsTraced();
      asked := [];
      SuppliedOnce(refills, Taken());
      assert PassedOver(calls, |calls|) by { NonePassed(calls); }
      if ahead {
        return Returned(Suspended), 0, [];
      }
      while true
        invariant Valid() && consumed >= old(consumed) && (!delivered ==> received == old(received))
        invariant old(AlwaysRefills()) ==> AlwaysRefills()
        invariant old(InStep()) ==> InStep()
        invariant old(calls) <= calls
        invariant Supplied(refills, old(Taken()), asked, Taken(), false)
        invariant PassedOver(calls, |old(calls)|) && |calls| >= |old(calls)|
        invariant |calls| > |old(calls)| ==> var result := calls[|calls| - 1].result; result.status.NeedMoreInput? || (result.AtMarker() && unreadMarker == 0)
        decreases Pending()
      {
        ValidIsTraced();
        var done;
        ghost var more;
        ghost var between, before := Taken(), calls;
        done, r, lost, more := Pass();
        PassedAgain(before, calls, |old(calls)|);
        SuppliedAgain(refills, old(Taken()), asked, between, more, Taken(), done && AtNeed());
        asked := asked + more;
        if done {
          if r.Returned? && lost == 0 {
            ValidIsTraced();
          }
          return;
        }
      }
    }

    lemma ValidIsTraced()
      requires Valid()
      ensures Traced() && consumed <= |received| && Pending() >= 0 && (!delivered ==> srcBuffer == received[consumed..])
    {
      hide Contiguous, MadeBy, ProcessorObeys, ParserObeys;
    }
  }

  lemma {:induction false} CallMadeBy(p: Processor, calls: seq<Call>, i: nat)
    requires MadeBy(p, calls) && i < |calls|
    ensures CallOf(p, calls[..i], calls[i]) && MadeBy(p, calls[..i])
  {
    hide CallOf;
    if i + 1 < |calls| {
      CallMadeBy(p, calls[..|calls| - 1], i);
      assert calls[..|calls| - 1][..i] == calls[..i];
    }
  }

  lemma {:induction false} WindowsGrow(p: Processor, calls: seq<Call>, i: nat, j: nat)
    requires MadeBy(p, calls) && i <= j < |calls|
    ensures calls[i].WindowEnd() <= calls[j].WindowEnd()
    decreases j
  {
    if i < j {
      WindowsGrow(p, calls, i, j - 1);
      CallMadeBy(p, calls, j);
      assert calls[..j][j - 1] == calls[j - 1];
    }
  }

  /** Asks for more input, and consumes nothing. */
  function Hungry(calls: seq<Call>, unread: Byte, window: seq<Byte>): Processed {
    Processed(NeedMoreInput, 0, unread)
  }

  lemma HungryObeys()
    ensures ProcessorObeys(Hungry)
  {
    forall calls: seq<Call>, received: seq<Byte>, consumed: nat | Contiguous(calls, received, consumed) && MadeBy(Hungry, calls)
      ensures MarkersBeyond(calls)
    {
      forall j | 0 <= j < |calls|
        ensures !calls[j].result.AtMarker()
      {
        CallMadeBy(Hungry, calls, j);
      }
    }
  }

  /** Skips its first window; afterwards it waits for a restart marker at the front of the window. */
  function SkipThenRestart(calls: seq<Call>, unread: Byte, window: seq<Byte>): Processed {
    if calls == [] then Processed(NeedMoreInput, |window|, unread)
    else if |window| >= 2 && window[0] == 0xFF && 0xD0 <= window[1] <= 0xD7 then Processed(HandleRestart, 2, window[1])
    else Processed(NeedMoreInput, 0, unread)
  }

  lemma InStream(calls: seq<Call>, received: seq<Byte>, consumed: nat, i: nat)
    requires Contiguous(calls, received, consumed) && i < |calls|
    ensures calls[i].WindowEnd() <= |received| && calls[i].data == received[calls[i].start..calls[i].WindowEnd()]
    ensures i > 0 ==> calls[i].start == calls[i - 1].start + calls[i - 1].used
  {
  }

  lemma {:induction false} StartsGrow(calls: seq<Call>, received: seq<Byte>, consumed: nat, i: nat, j: nat)
    requires Contiguous(calls, received, consumed) && i < j < |calls|
    ensures calls[i].start + calls[i].used <= calls[j].start
    decreases j
  {
    hide Contiguous;
    InStream(calls, received, consumed, j);
    if i + 1 < j {
      StartsGrow(calls, received, consumed, i, j - 1);
    }
  }

  /** Once there is something else at the front of a window, it stays there. */
  lemma {:induction false} WaitsForEver(calls: seq<Call>, received: seq<Byte>, consumed: nat, i: nat, j: nat)
    requires Contiguous(calls, received, consumed) && MadeBy(SkipThenRestart, calls) && 0 < i <= j < |calls|
    requires calls[i].result.status.NeedMoreInput? && |calls[i].data| >= 2
    ensures calls[j].start == calls[i].start && calls[j].result.status.NeedMoreInput?
    decreases j
  {
    hide Contiguous, MadeBy;
    CallMadeBy(SkipThenRestart, calls, i);
    CallMadeBy(SkipThenRestart, calls, j);
    assert calls[..i] != [] && calls[..j] != [];
    if i < j {
      WaitsForEver(calls, received, consumed, i, j - 1);
      CallMadeBy(SkipThenRestart, calls, j - 1);
      assert calls[..j - 1] != [];
      WindowsGrow(SkipThenRestart, calls, i, j);
      InStream(calls, received, consumed, i);
      InStream(calls, received, consumed, j);
      SameFront(received, calls[i].start, calls[i].WindowEnd(), calls[j].WindowEnd());
    }
  }

  lemma SameFront(received: seq<Byte>, start: nat, end: nat, later: nat)
    requires start + 2 <= end <= later <= |received|
    ensures received[start..end][0] == received[start..later][0] && received[start..end][1] == received[start..later][1]
  {
  }

  /** Such a processor, which stops after markers, keeps the contract: what it skipped lies before them. */
  lemma SkipThenRestartObeys()
    ensures ProcessorObeys(SkipThenRestart)
  {
    forall calls: seq<Call>, received: seq<Byte>, consumed: nat, i, j |
      Contiguous(calls, received, consumed) && MadeBy(SkipThenRestart, calls)
      && 0 <= i < j < |calls| && calls[i].result.status.NeedMoreInput? && calls[j].result.AtMarker()
      ensures calls[i].WindowEnd() <= calls[j].start + calls[j].result.read
    {
      CallMadeBy(SkipThenRestart, calls, i);
      CallMadeBy(SkipThenRestart, calls, j);
      StartsGrow(calls, received, consumed, i, j);
      if i > 0 && |calls[i].data| >= 2 {
        WaitsForEver(calls, received, consumed, i, j);
      }
    }
  }

  /** A source that refills once and then refuses: two passes of the loop of ConsumeInput lose the first byte. */
  method MixedSourceLosesInput(a: Byte, b: Byte) returns (d: Decoder)
    ensures fresh(d) && d.received == [a, b] && d.consumed == 0
    ensures d.inputBuffer == [] && d.srcBuffer == [b] && !d.Valid()
  {
    hide ProcessorObeys, ParserObeys, Recorded, AllInSource, Stitched, Decoder.InStep, Decoder.WasInStep;
    HungryObeys();
    d := new Decoder(Hungry, (calls, window) => (false, 0), false, [a], [Deliver([b]), Refuse]);
    var status := d.Process();
    assert d.received[d.consumed..] == [a];
    var result := d.Refill();
    assert d.received[d.consumed..] == [a, b];
    status := d.Process();
    FailedRefillKeepsInput(d.inputBuffer, d.inputBufferPos, d.srcBuffer, d.received[d.consumed..]);
    result := d.Refill();
  }

  lemma EmptyFirst(refills: bool, before: Intake, asked: seq<Answer>, after: Intake)
    requires Supplied(refills, before, asked, after, true) && before.answers != [] && before.answers[0] == Deliver([])
    ensures asked == [Deliver([])] && after.answers == before.answers[1..] && after.received == before.received
  {
    assert asked[0] == Deliver([]) && (|asked| > 1 ==> Gives(asked[0]));
    assert Answered(Later(before.answers), refills, asked[1..], after.answers) && BytesOf(asked[1..]) == [];
  }

  lemma HungryNeeds(calls: seq<Call>)
    requires MadeBy(Hungry, calls) && calls != []
    ensures calls[|calls| - 1].result.status.NeedMoreInput?
  {
    CallMadeBy(Hungry, calls, |calls| - 1);
  }

  /** An empty delivery ends the reading, whatever the source has after it. */
  method EmptyDeliveryEnds(a: Byte, b: Byte) returns (d: Decoder, r: Outcome)
    ensures fresh(d) && r == EmptyInput && d.received == [a] && d.answers == [Deliver([b])] && d.AlwaysRefills()
  {
    hide ProcessorObeys, Supplied, Contiguous, MadeBy, Needs, PassedOver, Decoder.Valid, Decoder.InStep, Decoder.OutOfStep;
    HungryObeys();
    d := new Decoder(Hungry, (calls, window) => (false, 0), true, [a], [Deliver([]), Deliver([b])]);
    ghost var before := d.Taken();
    ghost var lost, asked;
    r, lost, asked := d.ConsumeInput(false);
    HungryNeeds(d.calls);
    EmptyFirst(true, before, asked, d.Taken());
    assert before.answers[1..] == [Deliver([b])];
  }
}
