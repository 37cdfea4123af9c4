/** The refinement scans of the progressive mode (lib/jpegli/bitstream.cc): correction bits follow the
    symbols, and restarts and flushes are as in the other scans. */
module RefinementScans {
  import opened Arithmetic
  import opened BitStrings
  import opened EntropyBytes
  import opened BitWriter
  import opened ScanWriter
  import opened BlockCoding

  /** A symbol, whose bit 1 is the sign of a new coefficient, and the number of correction bits after it. */
  datatype RefToken = RefToken(symbol: Byte, refbits: nat)

  datatype RefScan = RefScan(tokens: seq<RefToken>, refbits: seq<nat>, eobruns: seq<nat>, restarts: seq<nat>)

  /** The symbol that is coded: the sign bit is cleared. */
  function CodedSymbol(t: RefToken): (s: Byte)
    ensures s == t.symbol || s == t.symbol - 2
  {
    if t.symbol / 2 % 2 == 1 then t.symbol - 2 else t.symbol
  }

  /** An end-of-band run longer than one: its length follows as extra bits. */
  predicate HasRunBits(t: RefToken) {
    CodedSymbol(t) % 2 == 0 && 0 < CodedSymbol(t) / 16 < 15
  }

  function RunsBefore(tokens: seq<RefToken>, i: nat): nat
    requires i <= |tokens|
  {
    if i == 0 then 0 else RunsBefore(tokens, i - 1) + (if HasRunBits(tokens[i - 1]) then 1 else 0)
  }

  function RefbitsBefore(tokens: seq<RefToken>, i: nat): nat
    requires i <= |tokens|
  {
    if i == 0 then 0 else RefbitsBefore(tokens, i - 1) + tokens[i - 1].refbits
  }

  predicate Complete(s: RefScan) {
    && RunsBefore(s.tokens, |s.tokens|) <= |s.eobruns| && RefbitsBefore(s.tokens, |s.tokens|) <= |s.refbits|
    && (forall k :: 0 <= k < |s.refbits| ==> s.refbits[k] < 2)
  }

  lemma {:induction false} CountsMono(tokens: seq<RefToken>, i: nat, j: nat)
    requires i <= j <= |tokens|
    ensures RunsBefore(tokens, i) <= RunsBefore(tokens, j) && RefbitsBefore(tokens, i) <= RefbitsBefore(tokens, j)
  {
    if i < j {
      CountsMono(tokens, i, j - 1);
    }
  }

  /** What token i draws from the three lists. */
  lemma TokenInLists(s: RefScan, i: nat)
    requires Complete(s) && i < |s.tokens|
    ensures HasRunBits(s.tokens[i]) ==> RunsBefore(s.tokens, i) < |s.eobruns|
    ensures RefbitsBefore(s.tokens, i) + s.tokens[i].refbits <= |s.refbits|
  {
    hide HasRunBits;
    CountsMono(s.tokens, i + 1, |s.tokens|);
  }

  function ExtraOf(s: RefScan, i: nat): nat
    requires Complete(s) && i < |s.tokens|
  {
    TokenInLists(s, i);
    if CodedSymbol(s.tokens[i]) % 2 == 1 then s.tokens[i].symbol / 2 % 2
    else if HasRunBits(s.tokens[i]) then s.eobruns[RunsBefore(s.tokens, i)] else 0
  }

  function CorrectionBits(refbits: seq<nat>, from: nat, n: nat): (b: Bits)
    requires from + n <= |refbits|
    ensures |b| == n
  {
    seq(n, k requires 0 <= k < n => refbits[from + k] == 1)
  }

  predicate CodesExist(s: RefScan, c: CodeTable) {
    Complete(s) && forall i :: 0 <= i < |s.tokens| ==> CanEmit(c, CodedSymbol(s.tokens[i]), ExtraOf(s, i))
  }

  /** The bits of token i: its code with the extra bits, and its correction bits. */
  function RefItem(s: RefScan, c: CodeTable, i: nat): Bits
    requires CodesExist(s, c) && i < |s.tokens|
  {
    TokenInLists(s, i);
    CodeBits(c, CodedSymbol(s.tokens[i]), ExtraOf(s, i)) + CorrectionBits(s.refbits, RefbitsBefore(s.tokens, i), s.tokens[i].refbits)
  }

  function RefItems(s: RefScan, c: CodeTable): (items: seq<Bits>)
    requires CodesExist(s, c)
    ensures |items| == |s.tokens| && forall i :: 0 <= i < |items| ==> items[i] == RefItem(s, c, i)
  {
    seq(|s.tokens|, i requires 0 <= i < |s.tokens| => RefItem(s, c, i))
  }

  /** All symbols up to token p have codes. */
  ghost predicate CodesKnown(s: RefScan, c: CodeTable, p: nat)
    requires CodesExist(s, c) && p <= |s.tokens|
  {
    forall i :: 0 <= i < p ==> c.depth[CodedSymbol(s.tokens[i])] != 0
  }

  lemma LowOfBit(b: nat)
    requires b < 2
    ensures Low(b, 1) == [b == 1] && b < Pow2(1)
  {
    assert Low(b, 0) == [];
    assert Pow2(0) == 1;
  }

  lemma CorrectionStep(refbits: seq<nat>, from: nat, j: nat)
    requires from + j < |refbits|
    ensures CorrectionBits(refbits, from, j + 1) == CorrectionBits(refbits, from, j) + [refbits[from + j] == 1]
  {
  }

  /** The inner loop. */
  method WriteCorrectionBits(bw: JpegBitWriter, refbits: seq<nat>, from: nat, n: nat) returns (next: nat)
    requires bw.Valid() && from + n <= |refbits| && forall k :: 0 <= k < |refbits| ==> refbits[k] < 2
    modifies bw
    ensures bw.Valid() && bw.base == old(bw.base) && bw.healthy == old(bw.healthy) && next == from + n
    ensures bw.Bits() == old(bw.Bits()) + CorrectionBits(refbits, from, n)
  {
    next := from;
    for j := 0 to n
      invariant bw.Valid() && bw.base == old(bw.base) && bw.healthy == old(bw.healthy) && next == from + j
      invariant bw.Bits() == old(bw.Bits()) + CorrectionBits(refbits, from, j)
    {
      hide bw.Valid, bw.Bits, CorrectionBits, Low, Pow2;
      LowOfBit(refbits[next]);
      CorrectionStep(refbits, from, j);
      bw.WriteBits(1, refbits[next]);
      next := next + 1;
    }
  }

  /** One token: its item is appended to the current segment. */
  method WriteRefToken(bw: JpegBitWriter, c: CodeTable, s: RefScan, i: nat, refbitIdx: nat, eobrunIdx: nat,
                       restartIdx: nat, nextMarker: nat, ghost start: seq<Byte>)
    returns (newRefbit: nat, newEobrun: nat, newIdx: nat, newMarker: nat)
    requires CodesExist(s, c) && i < |s.tokens| && CutsInto(RefItems(s, c), 0, s.restarts) && i < s.restarts[|s.restarts| - 1]
    requires refbitIdx == RefbitsBefore(s.tokens, i) && eobrunIdx == RunsBefore(s.tokens, i)
    requires Progress(bw, start, RefItems(s, c), 0, s.restarts, restartIdx, i) && nextMarker == restartIdx % 8
    modifies bw
    ensures Progress(bw, start, RefItems(s, c), 0, s.restarts, newIdx, i + 1) && newMarker == newIdx % 8
    ensures newRefbit == RefbitsBefore(s.tokens, i + 1) && newEobrun == RunsBefore(s.tokens, i + 1)
    ensures bw.healthy <==> old(bw.healthy) && c.depth[CodedSymbol(s.tokens[i])] != 0
  {
    hide CutsInto, RefItem, CodeBits, CanEmit, CorrectionBits, Cut, RestartedSegments, RunsBefore, RefbitsBefore, CodedSymbol, bw.Bits, bw.Valid;
    ghost var items := RefItems(s, c);
    newIdx, newMarker := RestartIfDue(bw, s.restarts, restartIdx, nextMarker, i, start, items, 0);
    ConcatNext(items, SegmentStart(s.restarts, 0, newIdx), i);
    CountsNext(s.tokens, i);
    TokenInLists(s, i);
    var t := s.tokens[i];
    var symbol := CodedSymbol(t);
    var bits := 0;
    newEobrun := eobrunIdx;
    if symbol % 2 == 0 {
      var r := symbol / 16;
      if r > 0 && r < 15 {
        bits := s.eobruns[newEobrun];
        newEobrun := newEobrun + 1;
      }
    } else {
      bits := t.symbol / 2 % 2;
    }
    ItemParts(s, c, i);
    WriteSymbol(bw, c, symbol, bits);
    newRefbit := WriteCorrectionBits(bw, s.refbits, refbitIdx, t.refbits);
  }

  lemma CountsNext(tokens: seq<RefToken>, i: nat)
    requires i < |tokens|
    ensures RunsBefore(tokens, i + 1) == RunsBefore(tokens, i) + (if HasRunBits(tokens[i]) then 1 else 0)
    ensures RefbitsBefore(tokens, i + 1) == RefbitsBefore(tokens, i) + tokens[i].refbits
  {
  }

  lemma ItemParts(s: RefScan, c: CodeTable, i: nat)
    requires CodesExist(s, c) && i < |s.tokens|
    ensures CanEmit(c, CodedSymbol(s.tokens[i]), ExtraOf(s, i)) && RefbitsBefore(s.tokens, i) + s.tokens[i].refbits <= |s.refbits|
    ensures RefItems(s, c)[i] == CodeBits(c, CodedSymbol(s.tokens[i]), ExtraOf(s, i)) + CorrectionBits(s.refbits, RefbitsBefore(s.tokens, i), s.tokens[i].refbits)
  {
    TokenInLists(s, i);
    hide CanEmit, CodeBits;
  }

  /** AC refinement: the tokens of one scan, from the start of a segment. */
  method WriteACRefinementTokens(bw: JpegBitWriter, c: CodeTable, s: RefScan) returns (ok: bool)
    requires CodesExist(s, c) && CutsInto(RefItems(s, c), 0, s.restarts) && s.restarts[|s.restarts| - 1] == |s.tokens|
    requires bw.Valid() && bw.Bits() == [] && bw.healthy
    modifies bw, bw.dest
    ensures ok ==> Progress(bw, old(bw.base), RefItems(s, c), 0, s.restarts, |s.restarts| - 1, |s.tokens|)
    ensures ok ==> (bw.healthy <==> CodesKnown(s, c, |s.tokens|))
    ensures !ok ==> bw.dest.refills == [] && bw.dest.freeInBuffer == 0
  {
    hide Progress, CodesExist, CutsInto, RunsBefore, RefbitsBefore, CodedSymbol, bw.Bits, RefItems;
    ghost var items, start := RefItems(s, c), bw.base;
    StartOfScan(bw, items, 0, s.restarts);
    var cycleLen := bw.len / 64;
    var nextCycle := cycleLen;
    var refbitIdx, eobrunIdx, restartIdx, nextMarker := 0, 0, 0, 0;
    NothingBefore(s.tokens);
    BufferIsLarge(bw, start, items, s.restarts);
    for i := 0 to |s.tokens|
      invariant Progress(bw, start, items, 0, s.restarts, restartIdx, i) && nextMarker == restartIdx % 8
      invariant refbitIdx == RefbitsBefore(s.tokens, i) && eobrunIdx == RunsBefore(s.tokens, i) && 0 < nextCycle <= cycleLen
      invariant bw.healthy <==> CodesKnown(s, c, i)
    {
      refbitIdx, eobrunIdx, restartIdx, nextMarker :=
        WriteRefToken(bw, c, s, i, refbitIdx, eobrunIdx, restartIdx, nextMarker, start);
      ok, nextCycle := FlushCycle(bw, cycleLen, nextCycle, s.restarts, restartIdx, i + 1, start, items, 0);
      if !ok {
        return;
      }
    }
    ok := true;
    EndOfScan(bw, start, items, 0, s.restarts, restartIdx);
  }

  lemma NothingBefore(tokens: seq<RefToken>)
    ensures RunsBefore(tokens, 0) == 0 && RefbitsBefore(tokens, 0) == 0
  {
  }

  lemma BufferIsLarge(bw: JpegBitWriter, start: seq<Byte>, items: seq<Bits>, restarts: seq<nat>)
    requires CutsInto(items, 0, restarts) && Progress(bw, start, items, 0, restarts, 0, 0)
    ensures bw.len / 64 > 0
  {
  }

  /** DC refinement: one bit for each block. */
  function BitItems(refbits: seq<nat>): (items: seq<Bits>)
    ensures |items| == |refbits| && forall i :: 0 <= i < |items| ==> items[i] == [refbits[i] == 1]
  {
    seq(|refbits|, i requires 0 <= i < |refbits| => [refbits[i] == 1])
  }

  method WriteDCRefinementBits(bw: JpegBitWriter, refbits: seq<nat>, restarts: seq<nat>) returns (ok: bool)
    requires (forall k :: 0 <= k < |refbits| ==> refbits[k] < 2) && CutsInto(BitItems(refbits), 0, restarts)
    requires restarts[|restarts| - 1] == |refbits| && bw.Valid() && bw.Bits() == [] && bw.healthy
    modifies bw, bw.dest
    ensures ok ==> Progress(bw, old(bw.base), BitItems(refbits), 0, restarts, |restarts| - 1, |refbits|) && bw.healthy
    ensures !ok ==> bw.dest.refills == [] && bw.dest.freeInBuffer == 0
  {
    hide Progress, CutsInto, bw.Bits;
    ghost var items, start := BitItems(refbits), bw.base;
    StartOfScan(bw, items, 0, restarts);
    BufferIsLarge(bw, start, items, restarts);
    var cycleLen := bw.len * 4;
    var nextCycle := cycleLen;
    var restartIdx, nextMarker := 0, 0;
    for i := 0 to |refbits|
      invariant Progress(bw, start, items, 0, restarts, restartIdx, i) && nextMarker == restartIdx % 8
      invariant 0 < nextCycle <= cycleLen && bw.healthy
    {
      LowOfBit(refbits[i]);
      restartIdx, nextMarker := WriteItem(bw, 1, refbits[i], restarts, restartIdx, nextMarker, i, start, items, 0);
      ok, nextCycle := FlushCycle(bw, cycleLen, nextCycle, restarts, restartIdx, i + 1, start, items, 0);
      if !ok {
        return;
      }
    }
    ok := true;
    EndOfScan(bw, start, items, 0, restarts, restartIdx);
  }

  /** The tokens of a scan: of a first pass, or of a refinement of AC or DC coefficients. */
  datatype ScanTokens =
    | FirstPass(coding: Coding, arrays: seq<seq<Token>>, sti: ScanTokenInfo)
    | AcRefinement(codes: CodeTable, scan: RefScan)
    | DcRefinement(refbits: seq<nat>, restarts: seq<nat>)
  {
    predicate Writable() {
      match this
      case FirstPass(coding, arrays, _) => ScanWriter.Writable(coding, Concat(arrays))
      case AcRefinement(codes, scan) => CodesExist(scan, codes)
      case DcRefinement(refbits, _) => forall k :: 0 <= k < |refbits| ==> refbits[k] < 2
    }

    /** The bits of each item of all tokens; those of the scan begin with item First(). */
    function Items(): seq<Bits>
      requires Writable()
    {
      match this
      case FirstPass(coding, arrays, _) => ScanItems(coding, Concat(arrays))
      case AcRefinement(codes, scan) => RefItems(scan, codes)
      case DcRefinement(refbits, _) => BitItems(refbits)
    }

    function First(): nat {
      if FirstPass? then sti.tokenOffset else 0
    }

    function End(): nat {
      match this
      case FirstPass(_, _, sti) => sti.tokenOffset + sti.numTokens
      case AcRefinement(_, scan) => |scan.tokens|
      case DcRefinement(refbits, _) => |refbits|
    }

    function Restarts(): seq<nat> {
      match this
      case FirstPass(_, _, sti) => sti.restarts
      case AcRefinement(_, scan) => scan.restarts
      case DcRefinement(_, restarts) => restarts
    }

    /** The restart list cuts the items of the scan, and its sentinel is their end. */
    predicate WellCut()
      requires Writable()
    {
      CutsInto(Items(), First(), Restarts()) && Restarts()[|Restarts()| - 1] == End()
    }

    /** All symbols of the scan have codes. */
    ghost predicate Known()
      requires Writable() && WellCut()
    {
      match this
      case FirstPass(coding, arrays, sti) => AllKnown(ScanItems(coding, Concat(arrays)), sti.tokenOffset, sti.tokenOffset + sti.numTokens)
      case AcRefinement(codes, scan) => CodesKnown(scan, codes, |scan.tokens|)
      case DcRefinement(_, _) => true
    }

    /** The kind of the scan, by its first coefficient and the bit position of the pass before. */
    predicate IsKind(Ss: nat, Ah: nat) {
      if Ah == 0 then FirstPass? else if Ss > 0 then AcRefinement? else DcRefinement?
    }
  }

  /** The tokens of a scan of any kind. */
  method WriteAnyTokens(bw: JpegBitWriter, Ss: nat, Ah: nat, scan: ScanTokens) returns (ok: bool)
    requires scan.IsKind(Ss, Ah) && scan.Writable() && scan.WellCut()
    requires bw.Valid() && bw.Bits() == [] && bw.healthy
    modifies bw, bw.dest
    ensures ok ==> Progress(bw, old(bw.base), scan.Items(), scan.First(), scan.Restarts(), |scan.Restarts()| - 1, scan.End())
    ensures ok ==> (bw.healthy <==> scan.Known())
    ensures !ok ==> bw.dest.refills == [] && bw.dest.freeInBuffer == 0
  {
    hide Progress, CodesExist, CodesKnown, RefItems, BitItems, CutsInto, ScanItems, AllKnown, ScanWriter.Writable, Concat, bw.Bits;
    if Ah == 0 {
      ok := WriteTokens(bw, scan.coding, scan.arrays, scan.sti);
    } else if Ss > 0 {
      ok := WriteACRefinementTokens(bw, scan.codes, scan.scan);
    } else {
      ok := WriteDCRefinementBits(bw, scan.refbits, scan.restarts);
    }
  }

  /** A scan of any kind, from the tokens to the application's buffers; what it writes reads back as the items
      of the scan, cut before every restart (WrittenScanReadsBack). */
  method WriteScanData(bw: JpegBitWriter, Ss: nat, Ah: nat, scan: ScanTokens) returns (r: ScanResult)
    requires scan.IsKind(Ss, Ah) && scan.Writable() && scan.WellCut()
    requires bw.Valid() && bw.Bits() == [] && bw.healthy
    modifies bw, bw.dest
    ensures r == Written ==> bw.Valid() && bw.Bits() == [] && bw.data == [] && scan.Known()
    ensures r == Written ==> bw.dest.written == old(bw.base) + ScanBytes(Cut(scan.Items(), scan.First(), scan.Restarts()))
    ensures r == UnknownSymbol ==> !scan.Known()
    ensures r == Suspended ==> bw.dest.refills == [] && bw.dest.freeInBuffer == 0
  {
    hide Progress, ScanBytes, Cut, CutsInto, scan.Items, scan.Known, scan.Writable, bw.Bits;
    var ok := WriteAnyTokens(bw, Ss, Ah, scan);
    if !ok {
      return Suspended;
    }
    if !bw.healthy {
      return UnknownSymbol;
    }
    r := FinishScan(bw, old(bw.base), scan.Items(), scan.First(), scan.Restarts());
  }
}
