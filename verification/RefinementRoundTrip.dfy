/** Refinement passes on their whole way: from the blocks to the written scan, and from its bytes back to the blocks. */
module RefinementRoundTrip {
  import opened Arithmetic
  import opened BitStrings
  import opened BitWriter
  import opened HuffmanCode
  import opened EntropyBytes
  import opened EntropyStream
  import opened ScanWriter
  import opened BlockCoding
  import opened BlockSymbols
  import opened BlockDecoding
  import opened BlockReader
  import opened SuspendedReading
  import opened HuffmanLookup
  import opened SymbolLookup
  import opened BitReader
  import opened BlockTokens
  import opened ProgressiveBlocks
  import opened RefinementBlocks
  import opened RefinementReader
  import opened RefinementScans
  import opened RefinementTokenizer
  import TokenRoundTrip

  // ---------------------------------------------------------------- the written scan

  lemma ItemAt(l: Lists, c: CodeTable, i: nat)
    requires l.Exact() && i < |l.tokens|
    ensures ItemsIn(l)[i].symbol == CodedSymbol(l.tokens[i]) && ItemsIn(l)[i].extra == ExtraOf(l.Scan(), i)
    ensures CodesExist(l.Scan(), c) ==> RefItem(l.Scan(), c, i) == CodeBits(c, ItemsIn(l)[i].symbol, ItemsIn(l)[i].extra) + ItemsIn(l)[i].corrections
  {
    TokenInLists(l.Scan(), i);
  }

  lemma SameCodes(l: Lists, c: CodeTable)
    requires l.Exact()
    ensures CodesExist(l.Scan(), c) <==> Emittable(c, ItemsIn(l))
  {
    hide CanEmit, ItemsIn, ExtraOf, CodedSymbol, RefItem;
    forall i | 0 <= i < |l.tokens|
      ensures ItemsIn(l)[i].symbol == CodedSymbol(l.tokens[i]) && ItemsIn(l)[i].extra == ExtraOf(l.Scan(), i)
    {
      ItemAt(l, c, i);
    }
  }

  /** What is written for some of the tokens are the bits of their items. */
  lemma {:induction false} ItemsAreWritten(l: Lists, c: CodeTable, i: nat, j: nat)
    requires l.Exact() && CodesExist(l.Scan(), c) && i <= j <= |l.tokens|
    ensures Emittable(c, ItemsIn(l)[i..j]) && Concat(RefItems(l.Scan(), c)[i..j]) == BitsOfItems(c, ItemsIn(l)[i..j])
    decreases j - i
  {
    hide CanEmit, ItemsIn, RefItem, Lists.Exact, Concat, BitsOfItems, CodesExist;
    SameCodes(l, c);
    var some, bits := ItemsIn(l)[i..j], RefItems(l.Scan(), c)[i..j];
    if i == j {
      NoBitsAtAll(c);
      assert some == [] && bits == [];
    } else {
      ItemsAreWritten(l, c, i, j - 1);
      ItemAt(l, c, j - 1);
      var item := ItemsIn(l)[j - 1];
      assert some == ItemsIn(l)[i..j - 1] + [item];
      OneItem(c, item);
      BitsOfJoin(c, ItemsIn(l)[i..j - 1], [item]);
      ConcatNext(RefItems(l.Scan(), c), i, j - 1);
    }
  }

  lemma NoBitsAtAll(c: CodeTable)
    ensures Concat<bool>([]) == [] && BitsOfItems(c, []) == []
  {
  }

  lemma OneItem(c: CodeTable, item: Item)
    requires CanEmit(c, item.symbol, item.extra)
    ensures BitsOfItems(c, [item]) == CodeBits(c, item.symbol, item.extra) + item.corrections
  {
    assert [item][1..] == [];
  }

  /** The items of a scan, restart interval by restart interval. */
  function ItemsOfScan(intervals: seq<seq<Block>>, band: Band): seq<Item>
    requires band.Valid()
  {
    if intervals == [] then [] else
      ItemsOfScan(intervals[..|intervals| - 1], band) + ItemsOf(intervals[|intervals| - 1], band, 0, [])
  }

  /** The number of items up to the end of each interval. */
  function ItemEnds(intervals: seq<seq<Block>>, band: Band): (ends: seq<nat>)
    requires band.Valid()
    ensures |ends| == |intervals|
  {
    seq(|intervals|, k requires 0 <= k < |intervals| => |ItemsOfScan(intervals[..k + 1], band)|)
  }

  lemma NextItems(intervals: seq<seq<Block>>, band: Band, k: nat)
    requires band.Valid() && k < |intervals|
    ensures ItemsOfScan(intervals[..k + 1], band) == ItemsOfScan(intervals[..k], band) + ItemsOf(intervals[k], band, 0, [])
  {
    hide ItemsOf;
    assert intervals[..k + 1][..k] == intervals[..k];
  }

  lemma {:induction false} ItemsBefore(intervals: seq<seq<Block>>, band: Band, k: nat, m: nat)
    requires band.Valid() && k <= m <= |intervals|
    ensures ItemsOfScan(intervals[..k], band) <= ItemsOfScan(intervals[..m], band)
  {
    hide ItemsOf, ItemsOfScan;
    if k < m {
      ItemsBefore(intervals, band, k, m - 1);
      NextItems(intervals, band, m - 1);
    }
  }

  /** Every interval has an item: a block has a new coefficient, or its band ends before the last position. */
  lemma SomeItems(blocks: seq<Block>, band: Band)
    requires band.Valid() && blocks != []
    ensures ItemsOf(blocks, band, 0, []) != []
  {
    hide HasNew, NewItems, TailBits, ItemsOf, ItemsOfOne;
    FirstItems(blocks, band, 0, []);
    OneBlock(blocks[0], band, 0, []);
    SomeNewItems(blocks[0], band, band.first, 0, []);
    RefinementTokenizer.NoneBehind(blocks[0], band);
    if !HasNew(blocks[0], band, band.first) {
      NoNewItems(blocks[0], band, band.first, 0, []);
      var j := RunAbsorbs(blocks[1..], band, 1, TailBits(blocks[0], band));
    }
  }

  /** All intervals; before every one but the first comes a restart. */
  method TokenizeRefinementScan(intervals: seq<seq<Block>>, band: Band) returns (scan: RefScan)
    requires band.Valid()
    ensures var l := Lists(scan.tokens, scan.refbits, scan.eobruns);
      l.Exact() && ItemsIn(l) == ItemsOfScan(intervals, band) && scan.restarts == ItemEnds(intervals, band)
  {
    hide ItemsIn, ItemsOf, Lists.Exact, ItemsOfScan;
    var lists, restarts := Lists([], [], []), [];
    NoLists(band);
    assert intervals[..0] == [];
    for k := 0 to |intervals|
      invariant lists.Exact() && ItemsIn(lists) == ItemsOfScan(intervals[..k], band)
      invariant |restarts| == k && forall i :: 0 <= i < k ==> restarts[i] == |ItemsOfScan(intervals[..i + 1], band)|
    {
      NextItems(intervals, band, k);
      lists := TokenizeRefinementInterval(intervals[k], band, lists);
      assert |ItemsIn(lists)| == |lists.tokens|;
      restarts := restarts + [|lists.tokens|];
    }
    assert intervals[..|intervals|] == intervals;
    assert restarts == ItemEnds(intervals, band);
    scan := RefScan(lists.tokens, lists.refbits, lists.eobruns, restarts);
  }

  lemma NoLists(band: Band)
    requires band.Valid()
    ensures Lists([], [], []).Exact() && ItemsIn(Lists([], [], [])) == [] && ItemsOfScan([], band) == []
  {
  }

  /** The bits of the segments, one for each interval. */
  function SegmentsOfScan(intervals: seq<seq<Block>>, band: Band, c: CodeTable): (segs: seq<Bits>)
    requires band.Valid() && forall k :: 0 <= k < |intervals| ==> Emittable(c, ItemsOf(intervals[k], band, 0, []))
    ensures |segs| == |intervals|
  {
    seq(|intervals|, k requires 0 <= k < |intervals| => BitsOfItems(c, ItemsOf(intervals[k], band, 0, [])))
  }

  lemma PieceOfScan(l: Lists, c: CodeTable, intervals: seq<seq<Block>>, band: Band, k: nat)
    requires band.Valid() && k < |intervals| && intervals[k] != []
    requires l.Exact() && CodesExist(l.Scan(), c) && ItemsIn(l) == ItemsOfScan(intervals, band)
    ensures var start := SegmentStart(ItemEnds(intervals, band), 0, k);
      && start < ItemEnds(intervals, band)[k] <= |l.tokens| && Emittable(c, ItemsOf(intervals[k], band, 0, []))
      && Concat(RefItems(l.Scan(), c)[start..ItemEnds(intervals, band)[k]]) == BitsOfItems(c, ItemsOf(intervals[k], band, 0, []))
  {
    hide ItemsIn, ItemsOf, Lists.Exact, ItemsOfScan, CodesExist, Concat, BitsOfItems, RefItems, Emittable;
    NoLists(band);
    NextItems(intervals, band, k);
    ItemsBefore(intervals, band, k + 1, |intervals|);
    assert intervals[..|intervals|] == intervals && intervals[..0] == [];
    SomeItems(intervals[k], band);
    var before, mine := ItemsOfScan(intervals[..k], band), ItemsOf(intervals[k], band, 0, []);
    var start, end := |before|, |before + mine|;
    assert SegmentStart(ItemEnds(intervals, band), 0, k) == start && ItemEnds(intervals, band)[k] == end;
    assert ItemsIn(l)[start..end] == mine;
    ItemsAreWritten(l, c, start, end);
  }

  /** Cut at its restarts, the scan has one segment for each interval. */
  lemma CutIsIntervals(l: Lists, c: CodeTable, intervals: seq<seq<Block>>, band: Band)
    requires band.Valid() && intervals != [] && forall k :: 0 <= k < |intervals| ==> intervals[k] != []
    requires l.Exact() && CodesExist(l.Scan(), c) && ItemsIn(l) == ItemsOfScan(intervals, band)
    ensures forall k :: 0 <= k < |intervals| ==> Emittable(c, ItemsOf(intervals[k], band, 0, []))
    ensures var items, ends := RefItems(l.Scan(), c), ItemEnds(intervals, band);
      && CutsInto(items, 0, ends) && ends[|ends| - 1] == |l.tokens| && Cut(items, 0, ends) == SegmentsOfScan(intervals, band, c)
  {
    hide ItemsIn, ItemsOf, Lists.Exact, ItemsOfScan, CodesExist, Concat, BitsOfItems, Emittable, Cut, SegmentStart;
    var items, ends := RefItems(l.Scan(), c), ItemEnds(intervals, band);
    forall k | 0 <= k < |intervals|
      ensures Emittable(c, ItemsOf(intervals[k], band, 0, []))
      ensures SegmentStart(ends, 0, k) < ends[k] <= |items|
      ensures Concat(items[SegmentStart(ends, 0, k)..ends[k]]) == BitsOfItems(c, ItemsOf(intervals[k], band, 0, []))
    {
      PieceOfScan(l, c, intervals, band, k);
    }
    TokenRoundTrip.CutOfPieces(items, 0, ends, SegmentsOfScan(intervals, band, c));
    assert intervals[..|intervals|] == intervals;
  }

  lemma {:induction false} AllEmittable(c: CodeTable, intervals: seq<seq<Block>>, band: Band)
    requires band.Valid() && forall k :: 0 <= k < |intervals| ==> Emittable(c, ItemsOf(intervals[k], band, 0, []))
    ensures Emittable(c, ItemsOfScan(intervals, band))
  {
    hide ItemsOf, CanEmit;
    if intervals != [] {
      AllEmittable(c, intervals[..|intervals| - 1], band);
    }
  }

  /** The encoder, from the blocks of a refinement pass to the bytes that reach the application. */
  method EncodeRefinementScan(intervals: seq<seq<Block>>, band: Band, c: CodeTable, bw: JpegBitWriter) returns (r: ScanResult)
    requires band.Valid() && intervals != [] && forall k :: 0 <= k < |intervals| ==> intervals[k] != []
    requires forall k :: 0 <= k < |intervals| ==> Emittable(c, ItemsOf(intervals[k], band, 0, []))
    requires bw.Valid() && bw.Bits() == [] && bw.healthy
    modifies bw, bw.dest
    ensures r == Written ==> bw.dest.written == old(bw.base) + ScanBytes(SegmentsOfScan(intervals, band, c))
    ensures r == ScanResult.Suspended ==> bw.dest.refills == [] && bw.dest.freeInBuffer == 0
  {
    hide ItemsIn, ItemsOf, Lists.Exact, ItemsOfScan, CodesExist, Emittable, RefItems, Cut, CutsInto, ScanBytes, SegmentsOfScan, JpegBitWriter.Bits, CodesKnown;
    var scan := TokenizeRefinementScan(intervals, band);
    ghost var l := Lists(scan.tokens, scan.refbits, scan.eobruns);
    AllEmittable(c, intervals, band);
    SameCodes(l, c);
    SameRestarts(l, scan, c);
    CutIsIntervals(l, c, intervals, band);
    r := WriteScanData(bw, band.first, band.shift + 1, AcRefinement(c, scan));
  }

  /** The restarts make no difference to the items. */
  lemma SameRestarts(l: Lists, scan: RefScan, c: CodeTable)
    requires l == Lists(scan.tokens, scan.refbits, scan.eobruns) && l.Exact()
    ensures CodesExist(scan, c) <==> CodesExist(l.Scan(), c)
    ensures CodesExist(scan, c) ==> RefItems(scan, c) == RefItems(l.Scan(), c)
  {
    hide CanEmit;
  }

  // ---------------------------------------------------------------- and back

  /** The round trip of an interval of a refinement pass, over its stuffed bytes. */
  method RefineWrittenInterval(acLut: array<Entry>, data: seq<Byte>, start: nat, coeffs: seq<Block>, band: Band, ghost t: HuffmanTable, ghost c: CodeTable,
                               ghost blocks: seq<Block>, ghost after: seq<Byte>)
      returns (ok: bool, decoded: seq<Block>, eobRun: int, ghost read: nat)
    requires acLut.Length == LUT_SIZE && Refines(t, acLut[..]) && band.Valid() && TableOf(t, c) && HuffmanCode.Valid(t)
    requires |coeffs| == |blocks| && AllBefore(blocks, band, coeffs)
    requires RefinementBlocks.AllKnown(t, ItemsOf(blocks, band, 0, [])) && Emittable(c, ItemsOf(blocks, band, 0, []))
    requires start <= |data| && data == data[..start] + SegmentBytes(BitsOfItems(c, ItemsOf(blocks, band, 0, []))) + after
    requires 0 < |data| && (after == [] || (|after| >= 2 && after[0] == 0xFF && after[1] != 0))
    ensures ok && decoded == AllRefined(blocks, band, coeffs) && eobRun <= 0
    ensures read == |BitsOfItems(c, ItemsOf(blocks, band, 0, []))|
  {
    hide Refines, Ahead, RefineBlocks, HuffmanCode.Valid, TableOf, RefinementBlocks.AllKnown, Emittable, AllBefore, ItemsOf, BitsOfItems;
    hide SegmentBytes, AllRefined, Stream;
    ghost var s := BitsOfItems(c, ItemsOf(blocks, band, 0, []));
    ghost var last := |s| + 8192 * |coeffs|;
    var br := new BitReaderState(data, start);
    StreamOfSegment(data[..start], s, after);
    AheadSplit(data, start, 0, |s|, last);
    ghost var end := BlocksAreRefined(t, c, blocks, band, coeffs, -1, Ahead(data, start, |s|, last));
    ok, decoded, eobRun := RefineBandBlocks(acLut, br, coeffs, band, t, last);
    read := br.Consumed();
    AheadLength(data, start, read, last);
    AheadLength(data, start, |s|, last);
  }
}
