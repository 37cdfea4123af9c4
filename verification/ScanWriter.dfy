/**
 The entropy-coded data of one scan: tokens, restart markers and the flush cycle.
 */
module ScanWriter {
  import opened Arithmetic
  import opened BitStrings
  import opened EntropyBytes
  import opened BitWriter

  /** Per symbol: the number of bits to write, 0 for a symbol without a code, and the code, shifted
      left to make room for the extra bits. */
  datatype CodeTable = CodeTable(depth: seq<nat>, code: seq<uint64>)
  {
    predicate WellFormed() {
      |depth| == 256 && |code| == 256
    }
  }

  datatype Token = Token(context: nat, symbol: nat, bits: uint64)

  /** The tables, and for every context the index of its table. */
  datatype Coding = Coding(tables: seq<CodeTable>, contextMap: seq<nat>)
  {
    predicate Knows(t: Token) {
      && t.context < |contextMap| && contextMap[t.context] < |tables|
      && tables[contextMap[t.context]].WellFormed() && t.symbol < 256
    }

    function Depth(t: Token): nat
      requires Knows(t)
    {
      tables[contextMap[t.context]].depth[t.symbol]
    }

    function Code(t: Token): uint64
      requires Knows(t)
    {
      OrWord(tables[contextMap[t.context]].code[t.symbol], t.bits)
    }

    /** The code word with its extra bits fits into Depth(t) bits, at most 63. */
    predicate CanWrite(t: Token) {
      Knows(t) && Depth(t) <= 63 && (Depth(t) > 0 ==> Code(t) < Pow2(Depth(t)))
    }

    /** What a token contributes to the bit stream; nothing if its symbol has no code. */
    function TokenBits(t: Token): Bits
      requires Knows(t)
    {
      Low(Code(t), Depth(t))
    }
  }

  datatype ScanTokenInfo = ScanTokenInfo(tokenOffset: nat, numTokens: nat, restarts: seq<nat>)

  datatype ScanResult = Written | UnknownSymbol | Suspended

  // ---------------------------------------------------------------- specification

  function Concat<T>(parts: seq<seq<T>>): seq<T> {
    if parts == [] then [] else Concat(parts[..|parts| - 1]) + parts[|parts| - 1]
  }

  /** The restart list of a scan over the items [first, end): strictly increasing item indices at
      which a restart marker goes before the item, closed by the sentinel `end`. */
  predicate RestartList(restarts: seq<nat>, first: nat, end: nat) {
    && restarts != [] && first <= restarts[0] && restarts[|restarts| - 1] == end
    && forall i, j :: 0 <= i < j < |restarts| ==> restarts[i] < restarts[j]
  }

  function SegmentStart(restarts: seq<nat>, first: nat, k: nat): nat
    requires k <= |restarts|
  {
    if k == 0 then first else restarts[k - 1]
  }

  predicate CutsInto(items: seq<Bits>, first: nat, restarts: seq<nat>) {
    restarts != [] && RestartList(restarts, first, restarts[|restarts| - 1]) && restarts[|restarts| - 1] <= |items|
  }

  lemma CutBounds(items: seq<Bits>, first: nat, restarts: seq<nat>, k: nat)
    requires CutsInto(items, first, restarts) && k < |restarts|
    ensures first <= SegmentStart(restarts, first, k) <= restarts[k] <= |items|
  {
    assert k < |restarts| - 1 ==> restarts[k] < restarts[|restarts| - 1];
    assert k > 0 ==> restarts[k - 1] < restarts[k];
    assert k > 1 ==> restarts[0] < restarts[k - 1];
  }

  /** The bits of the segments: items cut before every restart index. */
  function Cut(items: seq<Bits>, first: nat, restarts: seq<nat>): (segs: seq<Bits>)
    requires CutsInto(items, first, restarts)
    ensures |segs| == |restarts|
  {
    seq(|restarts|, k requires 0 <= k < |restarts| =>
      CutBounds(items, first, restarts, k);
      Concat(items[SegmentStart(restarts, first, k)..restarts[k]]))
  }

  // ---------------------------------------------------------------- progress of a scan

  /** Item p is next and restarts[idx] is the next restart: the segments before idx are out, with
      their markers, and the current segment holds the items since the last restart. */
  ghost predicate Progress(bw: JpegBitWriter, start: seq<Byte>, items: seq<Bits>, first: nat, restarts: seq<nat>,
                           idx: nat, p: nat)
    requires CutsInto(items, first, restarts)
    reads bw, bw.dest
  {
    && bw.Valid()
    && idx < |restarts| && SegmentStart(restarts, first, idx) <= p <= restarts[idx] <= |items|
    && bw.base == start + RestartedSegments(Cut(items, first, restarts), idx)
    && bw.Bits() == Concat(items[SegmentStart(restarts, first, idx)..p])
  }

  method EmitRestart(bw: JpegBitWriter, marker: nat)
    requires bw.Valid() && marker < 8
    modifies bw
    ensures bw.Valid() && bw.Bits() == [] && bw.healthy == old(bw.healthy)
    ensures bw.base == old(bw.base) + SegmentBytes(old(bw.Bits())) + [0xFF, 0xD0 + marker]
  {
    bw.JumpToByteBoundary();
    bw.EmitMarker(0xD0 + marker);
  }

  /** The check for a restart before item p. The markers count modulo 8. */
  method RestartIfDue(bw: JpegBitWriter, restarts: seq<nat>, restartIdx: nat, nextMarker: nat, p: nat,
                      ghost start: seq<Byte>, ghost items: seq<Bits>, ghost first: nat)
    returns (newIdx: nat, newMarker: nat)
    requires CutsInto(items, first, restarts) && p < restarts[|restarts| - 1]
    requires Progress(bw, start, items, first, restarts, restartIdx, p) && nextMarker == restartIdx % 8
    modifies bw
    ensures Progress(bw, start, items, first, restarts, newIdx, p) && newMarker == newIdx % 8
    ensures p < restarts[newIdx] && bw.healthy == old(bw.healthy)
  {
    newIdx, newMarker := restartIdx, nextMarker;
    if p == restarts[newIdx] {
      NextSegment(items, first, restarts, newIdx, start, bw.Bits());
      EmitRestart(bw, newMarker);
      newMarker := (newMarker + 1) % 8;
      newIdx := newIdx + 1;
    }
  }

  /** One item: the restart check, then its bits. */
  method WriteItem(bw: JpegBitWriter, nbits: nat, bits: uint64, restarts: seq<nat>, restartIdx: nat, nextMarker: nat,
                   p: nat, ghost start: seq<Byte>, ghost items: seq<Bits>, ghost first: nat)
    returns (newIdx: nat, newMarker: nat)
    requires CutsInto(items, first, restarts) && p < restarts[|restarts| - 1]
    requires Progress(bw, start, items, first, restarts, restartIdx, p) && nextMarker == restartIdx % 8
    requires nbits <= 63 && (nbits > 0 ==> bits < Pow2(nbits)) && items[p] == Low(bits, nbits)
    modifies bw
    ensures Progress(bw, start, items, first, restarts, newIdx, p + 1) && newMarker == newIdx % 8
    ensures bw.healthy == (old(bw.healthy) && items[p] != [])
  {
    newIdx, newMarker := RestartIfDue(bw, restarts, restartIdx, nextMarker, p, start, items, first);
    ConcatNext(items, SegmentStart(restarts, first, newIdx), p);
    bw.WriteBits(nbits, bits);
  }

  lemma ConcatNext<T>(parts: seq<seq<T>>, i: nat, j: nat)
    requires i <= j < |parts|
    ensures Concat(parts[i..j + 1]) == Concat(parts[i..j]) + parts[j]
  {
    assert parts[i..j + 1][..j - i] == parts[i..j];
  }

  lemma NextSegment(items: seq<Bits>, first: nat, restarts: seq<nat>, idx: nat, start: seq<Byte>, bits: Bits)
    requires CutsInto(items, first, restarts) && idx < |restarts| - 1
    requires SegmentStart(restarts, first, idx) <= restarts[idx] <= |items|
    requires bits == Concat(items[SegmentStart(restarts, first, idx)..restarts[idx]])
    ensures restarts[idx] < restarts[idx + 1] <= |items|
    ensures start + RestartedSegments(Cut(items, first, restarts), idx) + SegmentBytes(bits) + [0xFF, 0xD0 + idx % 8]
         == start + RestartedSegments(Cut(items, first, restarts), idx + 1)
    ensures Concat(items[restarts[idx]..restarts[idx]]) == [] && (idx + 1) % 8 == (idx % 8 + 1) % 8
  {
    CutBounds(items, first, restarts, idx + 1);
    var segs := Cut(items, first, restarts);
    CutAt(items, first, restarts, idx);
    RestartedStep(segs, idx, bits, start);
    NextMod8(idx);
  }

  lemma NextMod8(n: nat)
    ensures (n + 1) % 8 == (n % 8 + 1) % 8
  {
  }

  lemma CutAt(items: seq<Bits>, first: nat, restarts: seq<nat>, k: nat)
    requires CutsInto(items, first, restarts) && k < |restarts|
    ensures first <= SegmentStart(restarts, first, k) <= restarts[k] <= |items|
    ensures Cut(items, first, restarts)[k] == Concat(items[SegmentStart(restarts, first, k)..restarts[k]])
  {
    CutBounds(items, first, restarts, k);
  }

  lemma RestartedStep(segs: seq<Bits>, idx: nat, bits: Bits, start: seq<Byte>)
    requires idx < |segs| && segs[idx] == bits
    ensures start + RestartedSegments(segs, idx) + SegmentBytes(bits) + [0xFF, 0xD0 + idx % 8]
         == start + RestartedSegments(segs, idx + 1)
  {
    Regroup(start, RestartedSegments(segs, idx), SegmentBytes(bits), RestartMarker(idx));
  }

  lemma Regroup<T>(a: seq<T>, b: seq<T>, c: seq<T>, d: seq<T>)
    ensures a + b + c + d == a + (b + c + d)
  {
  }

  // ---------------------------------------------------------------- the three kinds of scans

  /** Flushes once every `cycleLen` items; on suspension the scan cannot go on. */
  method FlushCycle(bw: JpegBitWriter, cycleLen: nat, cycle: nat, restarts: seq<nat>, restartIdx: nat, p: nat,
                    ghost start: seq<Byte>, ghost items: seq<Bits>, ghost first: nat)
    returns (ok: bool, nextCycle: nat)
    requires CutsInto(items, first, restarts) && Progress(bw, start, items, first, restarts, restartIdx, p)
    requires 0 < cycle <= cycleLen
    modifies bw`data, bw`outputPos, bw.dest
    ensures Progress(bw, start, items, first, restarts, restartIdx, p) && 0 < nextCycle <= cycleLen
    ensures !ok ==> bw.dest.refills == [] && bw.dest.freeInBuffer == 0
  {
    nextCycle := cycle - 1;
    ok := true;
    if nextCycle == 0 {
      ok := bw.EmptyBitWriterBuffer();
      nextCycle := cycleLen;
    }
  }

  predicate Writable(coding: Coding, tokens: seq<Token>) {
    forall i :: 0 <= i < |tokens| ==> coding.CanWrite(tokens[i])
  }

  function ScanItems(coding: Coding, tokens: seq<Token>): (items: seq<Bits>)
    requires Writable(coding, tokens)
    ensures |items| == |tokens|
    ensures forall i :: 0 <= i < |tokens| ==> items[i] == coding.TokenBits(tokens[i])
  {
    seq(|tokens|, i requires 0 <= i < |tokens| => coding.TokenBits(tokens[i]))
  }

  /** Every item in the range has a code. */
  ghost predicate AllKnown(items: seq<Bits>, from: nat, to: nat) {
    forall i :: from <= i < to <= |items| ==> items[i] != []
  }

  lemma {:induction false} ConcatPrefix<T>(arrays: seq<seq<T>>, k: nat, i: nat)
    requires k < |arrays| && i < |arrays[k]|
    ensures |Concat(arrays[..k])| + i < |Concat(arrays)|
    ensures Concat(arrays)[|Concat(arrays[..k])| + i] == arrays[k][i]
    decreases |arrays|
  {
    var rest := arrays[..|arrays| - 1];
    if k < |rest| {
      ConcatPrefix(rest, k, i);
      assert rest[..k] == arrays[..k];
    }
  }

  function Clamp(x: nat, lo: nat, hi: nat): nat
    requires lo <= hi
  {
    if x < lo then lo else if x > hi then hi else x
  }

  /** The tokens startIx, ..., endIx - 1 of one array; total tokens precede the array. */
  method WriteTokenArray(bw: JpegBitWriter, coding: Coding, tokens: seq<Token>, total: nat, startIx: nat, endIx: nat,
                         restarts: seq<nat>, restartIdx: nat, nextMarker: nat,
                         ghost start: seq<Byte>, ghost items: seq<Bits>, ghost first: nat)
    returns (ok: bool, newIdx: nat, newMarker: nat)
    requires CutsInto(items, first, restarts) && Writable(coding, tokens)
    requires startIx <= endIx <= |tokens| && total + endIx <= restarts[|restarts| - 1]
    requires forall i :: startIx <= i < endIx ==> items[total + i] == coding.TokenBits(tokens[i])
    requires Progress(bw, start, items, first, restarts, restartIdx, total + startIx) && nextMarker == restartIdx % 8
    requires 65536 <= bw.len && first <= total + startIx && (bw.healthy <==> AllKnown(items, first, total + startIx))
    modifies bw, bw.dest
    ensures ok ==> Progress(bw, start, items, first, restarts, newIdx, total + endIx) && newMarker == newIdx % 8
    ensures ok ==> (bw.healthy <==> AllKnown(items, first, total + endIx))
    ensures !ok ==> bw.dest.refills == [] && bw.dest.freeInBuffer == 0
  {
    hide Progress, CutsInto;
    newIdx, newMarker := restartIdx, nextMarker;
    var cycleLen := bw.len / 8;
    var nextCycle := cycleLen;
    for i := startIx to endIx
      invariant Progress(bw, start, items, first, restarts, newIdx, total + i)
      invariant newMarker == newIdx % 8 && 0 < nextCycle <= cycleLen
      invariant bw.healthy <==> AllKnown(items, first, total + i)
    {
      var t := tokens[i];
      newIdx, newMarker := WriteItem(bw, coding.Depth(t), coding.Code(t), restarts, newIdx, newMarker,
                                     total + i, start, items, first);
      ok, nextCycle := FlushCycle(bw, cycleLen, nextCycle, restarts, newIdx, total + i + 1, start, items, first);
      if !ok {
        return;
      }
    }
    ok := true;
  }

  method WriteTokens(bw: JpegBitWriter, coding: Coding, arrays: seq<seq<Token>>, sti: ScanTokenInfo) returns (ok: bool)
    requires Writable(coding, Concat(arrays))
    requires CutsInto(ScanItems(coding, Concat(arrays)), sti.tokenOffset, sti.restarts)
    requires sti.restarts[|sti.restarts| - 1] == sti.tokenOffset + sti.numTokens
    requires bw.Valid() && bw.Bits() == [] && bw.healthy
    modifies bw, bw.dest
    ensures ok ==> Progress(bw, old(bw.base), ScanItems(coding, Concat(arrays)), sti.tokenOffset, sti.restarts,
                            |sti.restarts| - 1, sti.tokenOffset + sti.numTokens)
    ensures ok ==> (bw.healthy <==> AllKnown(ScanItems(coding, Concat(arrays)), sti.tokenOffset, sti.tokenOffset + sti.numTokens))
    ensures !ok ==> bw.dest.refills == [] && bw.dest.freeInBuffer == 0
  {
    hide Progress, Concat, ScanItems, Writable, AllKnown;
    var first, end := sti.tokenOffset, sti.tokenOffset + sti.numTokens;
    ghost var all := Concat(arrays);
    ghost var items := ScanItems(coding, all);
    ghost var start := bw.base;
    StartOfScan(bw, items, first, sti.restarts);
    NothingYet(arrays);
    var totalTokens, restartIdx, nextMarker := 0, 0, 0;
    for ta := 0 to |arrays|
      invariant totalTokens == |Concat(arrays[..ta])|
      invariant Progress(bw, start, items, first, sti.restarts, restartIdx, Clamp(totalTokens, first, end))
      invariant nextMarker == restartIdx % 8
      invariant bw.healthy <==> AllKnown(items, first, Clamp(totalTokens, first, end))
    {
      var tokens := arrays[ta];
      var numTokens := |tokens|;
      ArrayInScan(coding, arrays, ta);
      if first < totalTokens + numTokens && totalTokens < end {
        assert Clamp(totalTokens, first, end) == if totalTokens < first then first else totalTokens;
        var startIx := if totalTokens < first then first - totalTokens else 0;
        var endIx := if end - totalTokens < numTokens then end - totalTokens else numTokens;
        ok, restartIdx, nextMarker := WriteTokenArray(bw, coding, tokens, totalTokens, startIx, endIx, sti.restarts,
                                                      restartIdx, nextMarker, start, items, first);
        if !ok {
          return;
        }
      }
      totalTokens := totalTokens + numTokens;
    }
    ok := true;
    assert arrays[..|arrays|] == arrays;
    EndOfScan(bw, start, items, first, sti.restarts, restartIdx);
  }

  /** The last segment of a scan is closed, and everything goes to the application. */
  method FinishScan(bw: JpegBitWriter, ghost start: seq<Byte>, ghost items: seq<Bits>, ghost first: nat,
                    ghost restarts: seq<nat>)
    returns (r: ScanResult)
    requires CutsInto(items, first, restarts)
    requires Progress(bw, start, items, first, restarts, |restarts| - 1, restarts[|restarts| - 1])
    modifies bw, bw.dest
    ensures r == Written || r == Suspended
    ensures r == Written ==> bw.Valid() && bw.Bits() == [] && bw.data == []
    ensures r == Written ==> bw.dest.written == start + ScanBytes(Cut(items, first, restarts))
    ensures r == Suspended ==> bw.dest.refills == [] && bw.dest.freeInBuffer == 0
  {
    LastSegment(items, first, restarts, start);
    hide Cut, RestartedSegments, SegmentBytes, ScanBytes;
    bw.JumpToByteBoundary();
    var ok := bw.EmptyBitWriterBuffer();
    assert Stuff(bw.words) == [];
    return if ok then Written else Suspended;
  }

  lemma LastSegment(items: seq<Bits>, first: nat, restarts: seq<nat>, start: seq<Byte>)
    requires restarts != [] && CutsInto(items, first, restarts)
    ensures 0 <= SegmentStart(restarts, first, |restarts| - 1) <= restarts[|restarts| - 1] <= |items|
    ensures start + RestartedSegments(Cut(items, first, restarts), |restarts| - 1)
              + SegmentBytes(Concat(items[SegmentStart(restarts, first, |restarts| - 1)..restarts[|restarts| - 1]]))
         == start + ScanBytes(Cut(items, first, restarts))
  {
    hide *;
    CutAt(items, first, restarts, |restarts| - 1);
    LastOfScan(Cut(items, first, restarts), start);
  }

  lemma LastOfScan(segs: seq<Bits>, start: seq<Byte>)
    requires segs != []
    ensures start + RestartedSegments(segs, |segs| - 1) + SegmentBytes(segs[|segs| - 1]) == start + ScanBytes(segs)
  {
    hide RestartedSegments, SegmentBytes;
    Associate(start, RestartedSegments(segs, |segs| - 1), SegmentBytes(segs[|segs| - 1]));
  }

  /** What a decoder finds in the written scan: the items, cut before every restart index. */
  lemma WrittenScanReadsBack(items: seq<Bits>, first: nat, restarts: seq<nat>)
    requires CutsInto(items, first, restarts)
    ensures var p := ParseScan(ScanBytes(Cut(items, first, restarts)));
      p.Segments? && |p.list| == |restarts| &&
      forall k :: 0 <= k < |restarts| ==>
        && 0 <= SegmentStart(restarts, first, k) <= restarts[k] <= |items|
        && (var s := Concat(items[SegmentStart(restarts, first, k)..restarts[k]]);
            BitsOfBytes(p.list[k].bytes) == s + Ones(Padding(|s|)))
        && p.list[k].marker == if k == |restarts| - 1 then -1 else 0xD0 + k % 8
  {
    var segs := Cut(items, first, restarts);
    ParseOfScan(segs);
    forall k | 0 <= k < |restarts|
      ensures 0 <= SegmentStart(restarts, first, k) <= restarts[k] <= |items|
      ensures segs[k] == Concat(items[SegmentStart(restarts, first, k)..restarts[k]])
    {
      CutAt(items, first, restarts, k);
    }
  }

  lemma StartOfScan(bw: JpegBitWriter, items: seq<Bits>, first: nat, restarts: seq<nat>)
    requires CutsInto(items, first, restarts) && bw.Valid() && bw.Bits() == []
    ensures Progress(bw, bw.base, items, first, restarts, 0, first) && AllKnown(items, first, first)
  {
    CutBounds(items, first, restarts, 0);
  }

  lemma NothingYet<T>(arrays: seq<seq<T>>)
    ensures |Concat(arrays[..0])| == 0
  {
  }

  lemma EndOfScan(bw: JpegBitWriter, start: seq<Byte>, items: seq<Bits>, first: nat, restarts: seq<nat>, idx: nat)
    requires CutsInto(items, first, restarts)
    requires Progress(bw, start, items, first, restarts, idx, restarts[|restarts| - 1])
    ensures idx == |restarts| - 1
  {
    OnlyTheSentinel(restarts, first, idx);
  }

  lemma OnlyTheSentinel(restarts: seq<nat>, first: nat, i: nat)
    requires i < |restarts| && RestartList(restarts, first, restarts[|restarts| - 1])
    ensures restarts[i] >= restarts[|restarts| - 1] ==> i == |restarts| - 1
  {
  }

  lemma ArrayInScan(coding: Coding, arrays: seq<seq<Token>>, ta: nat)
    requires ta < |arrays| && Writable(coding, Concat(arrays))
    ensures Concat(arrays[..ta + 1]) == Concat(arrays[..ta]) + arrays[ta]
    ensures Writable(coding, arrays[ta])
    ensures |Concat(arrays[..ta])| + |arrays[ta]| <= |Concat(arrays)|
    ensures forall i :: 0 <= i < |arrays[ta]| ==>
      ScanItems(coding, Concat(arrays))[|Concat(arrays[..ta])| + i] == coding.TokenBits(arrays[ta][i])
  {
    assert arrays[..ta + 1][..ta] == arrays[..ta];
    ConcatGrows(arrays, ta + 1);
    var n := |Concat(arrays[..ta])|;
    hide *;
    forall i | 0 <= i < |arrays[ta]|
      ensures n + i < |Concat(arrays)| && Concat(arrays)[n + i] == arrays[ta][i]
    {
      ConcatPrefix(arrays, ta, i);
    }
  }

  lemma {:induction false} ConcatGrows<T>(parts: seq<seq<T>>, k: nat)
    requires k <= |parts|
    ensures |Concat(parts[..k])| <= |Concat(parts)|
    decreases |parts|
  {
    if k == |parts| {
      assert parts[..k] == parts;
    } else {
      ConcatGrows(parts[..|parts| - 1], k);
      assert parts[..|parts| - 1][..k] == parts[..k];
    }
  }
}
