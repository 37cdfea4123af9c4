/** The adaptive quantization pipeline (lib/jpegli/adaptive_quantization.cc): one call for each iMCU row,
    with every intermediate image in a ring of rows, computes the field of the whole image. */
module AdaptiveQuantization {
  import opened Arithmetic
  import opened FourSmallest
  import opened AdaptiveField
  import opened RowBuffers

  /** The ring holds the input rows lo .. hi - 1; rows outside the image repeat its edges. */
  ghost predicate InputWindow(p: Image, rows: seq<Line>, lo: int, hi: int)
    requires p.Valid()
  {
    |rows| > 0 && -1 <= lo && forall y :: lo <= y < hi ==> rows[Slot(|rows|, y)] == InputRow(p, y)
  }

  /** The ring holds the pre-erosion rows lo .. hi - 1. */
  ghost predicate PreWindow(p: Image, rows: seq<Line>, lo: int, hi: int)
    requires p.Valid()
  {
    |rows| > 0 && -1 <= lo && forall q :: lo <= q < hi ==> rows[Slot(|rows|, q)] == PreRow(p, q)
  }

  lemma InputPut(p: Image, rows: seq<Line>, lo: int, hi: int, y: int)
    requires p.Valid() && InputWindow(p, rows, lo, hi) && -1 <= y && lo <= hi && (y == hi || y == lo - 1) && hi - lo < |rows|
    ensures InputWindow(p, rows[Slot(|rows|, y) := InputRow(p, y)], if y < lo then y else lo, if y < lo then hi else hi + 1)
  {
    hide Slot, InputRow;
    forall z | lo <= z < hi
      ensures Slot(|rows|, z) != Slot(|rows|, y)
    {
      if z < y {
        SlotsDiffer(|rows|, z, y);
      } else {
        SlotsDiffer(|rows|, y, z);
      }
    }
  }

  lemma PrePut(p: Image, rows: seq<Line>, lo: int, hi: int, q: int)
    requires p.Valid() && PreWindow(p, rows, lo, hi) && -1 <= q && lo <= hi && (q == hi || q == lo - 1) && hi - lo < |rows|
    ensures PreWindow(p, rows[Slot(|rows|, q) := PreRow(p, q)], if q < lo then q else lo, if q < lo then hi else hi + 1)
  {
    hide Slot, PreRow;
    forall z | lo <= z < hi
      ensures Slot(|rows|, z) != Slot(|rows|, q)
    {
      if z < q {
        SlotsDiffer(|rows|, z, q);
      } else {
        SlotsDiffer(|rows|, q, z);
      }
    }
  }

  // ---------------------------------------------------------------- pre-erosion

  /** One input row: its differences start a new sum or are added to the one in the buffer. */
  method AccumulateRow(p: Image, above: Line, row: Line, below: Line, first: bool, buffer: array<real>)
    requires |above| == |row| == |below| == 8 * p.columns + 2 && buffer.Length >= 8 * p.columns
    modifies buffer
    ensures forall x :: 0 <= x < 8 * p.columns ==>
      buffer[x] == if first then Difference(p, above, row, below, x) else Difference(p, above, row, below, x) + old(buffer[x])
  {
    for x := 0 to 8 * p.columns
      invariant forall k :: 0 <= k < x ==>
        buffer[k] == if first then Difference(p, above, row, below, k) else Difference(p, above, row, below, k) + old(buffer[k])
      invariant forall k :: x <= k < 8 * p.columns ==> buffer[k] == old(buffer[k])
    {
      var diff := p.diff(row[x + 1], row[x + 2], row[x], above[x + 1], below[x + 1]);
      if !first {
        diff := diff + buffer[x];
      }
      buffer[x] := diff;
    }
  }

  /** The buffer holds the column sums of the first k rows of a quarter row. */
  ghost predicate Sums(p: Image, q: nat, k: nat, buffer: seq<real>)
    requires p.Valid() && k >= 1
  {
    |buffer| >= 8 * p.columns && forall x :: 0 <= x < 8 * p.columns ==> buffer[x] == ColumnSum(p, q, k, x)
  }

  lemma SumsAdvance(p: Image, y: nat, before: seq<real>, after: seq<real>)
    requires p.Valid() && |before| == |after| >= 8 * p.columns
    requires y % 4 != 0 ==> Sums(p, y / 4, y % 4, before)
    requires forall x :: 0 <= x < 8 * p.columns ==>
      after[x] == if y % 4 == 0 then DifferenceAt(p, y, x) else DifferenceAt(p, y, x) + before[x]
    ensures Sums(p, y / 4, y % 4 + 1, after)
  {
    hide DifferenceAt;
    var q, k := y / 4, y % 4 + 1;
    assert y == 4 * q + k - 1;
    forall x | 0 <= x < 8 * p.columns
      ensures after[x] == ColumnSum(p, q, k, x)
    {
      assert k > 1 ==> before[x] == ColumnSum(p, q, k - 1, x);
    }
  }

  /** Four rows done: the mean over four columns, padded. */
  method QuarterRow(p: Image, q: nat, buffer: array<real>) returns (line: Line)
    requires p.Valid() && q < 2 * p.blocks && Sums(p, q, 4, buffer[..])
    ensures line == PreRow(p, q)
  {
    hide ColumnSum;
    line := seq(p.padded + 2, _ => 0.0);
    for x := 0 to 2 * p.columns
      invariant |line| == p.padded + 2
      invariant forall k :: 0 <= k < x ==> line[k + 1] == PreErosion(p, q, k)
    {
      assert Sums(p, q, 4, buffer[..]);
      line := line[x + 1 := (buffer[x * 4] + buffer[x * 4 + 1] + buffer[x * 4 + 2] + buffer[x * 4 + 3]) * 0.25];
    }
    ghost var inner := line;
    line := PadRow(line, 2 * p.columns);
    hide PreErosion;
    forall x | 0 <= x < p.padded + 2
      ensures line[x] == PreRow(p, q)[x]
    {
      var k := Clamp(x - 1, 2 * p.columns);
      assert inner[k + 1] == PreErosion(p, q, k);
      assert PreRow(p, q)[x] == PreErosion(p, Clamp(q, 2 * p.blocks), k);
    }
    assert line == PreRow(p, q);
  }

  lemma InputRowsAround(p: Image, rows: seq<Line>, lo: int, hi: int, y: nat)
    requires p.Valid() && InputWindow(p, rows, lo, hi) && lo < y < hi - 1
    ensures |rows| > 0 && rows[Slot(|rows|, y - 1)] == InputRow(p, y - 1)
    ensures rows[Slot(|rows|, y)] == InputRow(p, y) && rows[Slot(|rows|, y + 1)] == InputRow(p, y + 1)
  {
  }

  /** Rows y0 .. y0 + ylen - 1 of the input give the quarter rows y0 / 4 .. (y0 + ylen) / 4 - 1. */
  method ComputePreErosion(p: Image, input: RowBuffer, y0: nat, ylen: nat, buffer: array<real>, pre: RowBuffer, ghost lo: int)
    requires p.Valid() && y0 % 4 == 0 && ylen % 4 == 0 && y0 + ylen <= 8 * p.blocks && buffer.Length >= 8 * p.columns
    requires input.rows != pre.rows && InputWindow(p, input.rows[..], y0 - 1, y0 + ylen + 1)
    requires lo <= y0 / 4 && PreWindow(p, pre.rows[..], lo, y0 / 4) && (y0 + ylen) / 4 - lo <= pre.rows.Length
    modifies buffer, pre.rows
    ensures PreWindow(p, pre.rows[..], lo, (y0 + ylen) / 4)
  {
    hide Difference, PreRow, InputRow, Sums, PreWindow, InputWindow, Slot;
    for iy := 0 to ylen
      invariant input.rows[..] == old(input.rows[..])
      invariant PreWindow(p, pre.rows[..], lo, (y0 + iy) / 4)
      invariant iy % 4 != 0 ==> Sums(p, (y0 + iy) / 4, iy % 4, buffer[..])
    {
      var y := y0 + iy;
      InputRowsAround(p, input.rows[..], y0 - 1, y0 + ylen + 1, y);
      ghost var before := buffer[..];
      AccumulateRow(p, input.At(y - 1), input.At(y), input.At(y + 1), iy % 4 == 0, buffer);
      SumsAdvance(p, y, before, buffer[..]);
      if iy % 4 == 3 {
        var yOut := y0 / 4 + iy / 4;
        var line := QuarterRow(p, yOut, buffer);
        PrePut(p, pre.rows[..], lo, yOut, yOut);
        pre.Put(yOut, line);
      }
    }
  }

  // ---------------------------------------------------------------- fuzzy erosion

  /** The weighted sum of the four smallest values around one column. */
  method ErodeAt(above: Line, row: Line, below: Line, x: nat) returns (v: real)
    requires |above| == |row| == |below| && x + 2 < |row|
    ensures v == Erode(above, row, below, x)
  {
    hide Sort;
    ghost var nine := Nine(above, row, below, x);
    var f := Sort4(Four(row[x + 1], row[x], row[x + 2], above[x]));
    assert nine[..4] == [row[x + 1], row[x], row[x + 2], above[x]];
    assert Sort(nine[..4])[..4] == f.Values();
    f := UpdateMin4(above[x + 1], f, nine[..4]);
    assert nine[..4] + [above[x + 1]] == nine[..5];
    f := UpdateMin4(above[x + 2], f, nine[..5]);
    assert nine[..5] + [above[x + 2]] == nine[..6];
    f := UpdateMin4(below[x], f, nine[..6]);
    assert nine[..6] + [below[x]] == nine[..7];
    f := UpdateMin4(below[x + 1], f, nine[..7]);
    assert nine[..7] + [below[x + 1]] == nine[..8];
    f := UpdateMin4(below[x + 2], f, nine[..8]);
    assert nine[..8] + [below[x + 2]] == nine;
    v := (0.125 * f.m0 + 0.075 * f.m1) + (0.06 * f.m2 + 0.05 * f.m3);
    var s := Sort(nine);
    assert s[..4][0] == s[0] && s[..4][1] == s[1] && s[..4][2] == s[2] && s[..4][3] == s[3];
  }

  method ErodeRow(above: Line, row: Line, below: Line, xsize: nat) returns (out: Line)
    requires |above| == |row| == |below| == xsize + 2
    ensures |out| == xsize && forall x :: 0 <= x < xsize ==> out[x] == Erode(above, row, below, x)
  {
    hide Erode;
    out := [];
    for x := 0 to xsize
      invariant |out| == x && forall k :: 0 <= k < x ==> out[k] == Erode(above, row, below, k)
    {
      var v := ErodeAt(above, row, below, x);
      out := out + [v];
    }
  }

  /** The eroded row q, as it is kept in the two-row ring. */
  ghost predicate IsErodedRow(p: Image, q: nat, line: Line)
    requires p.Valid()
  {
    |line| == p.padded && forall x :: 0 <= x < p.padded ==> line[x] == Eroded(p, q, x)
  }

  method SumBlocks(p: Image, b: nat, line0: Line, line1: Line) returns (out: Line)
    requires p.Valid() && IsErodedRow(p, 2 * b, line0) && IsErodedRow(p, 2 * b + 1, line1)
    ensures out == SumRow(p, b)
  {
    hide Eroded;
    out := [];
    for bx := 0 to p.columns
      invariant |out| == bx && forall k :: 0 <= k < bx ==> out[k] == BlockSum(p, b, k)
    {
      var x := 2 * bx;
      out := out + [line1[x] + line1[x + 1] + line0[x] + line0[x + 1]];
    }
  }

  lemma PreRowsAround(p: Image, rows: seq<Line>, lo: int, hi: int, q: nat)
    requires p.Valid() && PreWindow(p, rows, lo, hi) && lo < q < hi - 1
    ensures |rows| > 0 && rows[Slot(|rows|, q - 1)] == PreRow(p, q - 1)
    ensures rows[Slot(|rows|, q)] == PreRow(p, q) && rows[Slot(|rows|, q + 1)] == PreRow(p, q + 1)
  {
  }

  /** Rows of blocks yb0 .. yb0 + yblen - 1 of the map, through a ring of two eroded rows. */
  method FuzzyErosion(p: Image, pre: RowBuffer, yb0: nat, yblen: nat, tmp: RowBuffer, aqMap: RowBuffer)
    requires p.Valid() && pre.rows != tmp.rows && pre.rows != aqMap.rows && tmp.rows != aqMap.rows
    requires PreWindow(p, pre.rows[..], 2 * yb0 - 1, 2 * (yb0 + yblen) + 1)
    requires tmp.rows.Length == 2 && aqMap.rows.Length >= yblen && aqMap.rows.Length > 0
    modifies tmp.rows, aqMap.rows
    ensures forall b :: yb0 <= b < yb0 + yblen ==> aqMap.At(b) == SumRow(p, b)
  {
    hide PreWindow, PreRow, Eroded, SumRow, IsErodedRow, Slot;
    for iy := 0 to 2 * yblen
      invariant pre.rows[..] == old(pre.rows[..])
      invariant iy % 2 == 1 ==> IsErodedRow(p, 2 * yb0 + iy - 1, tmp.At(2 * yb0 + iy - 1))
      invariant forall b :: yb0 <= b < yb0 + iy / 2 ==> aqMap.At(b) == SumRow(p, b)
    {
      var y := 2 * yb0 + iy;
      PreRowsAround(p, pre.rows[..], 2 * yb0 - 1, 2 * (yb0 + yblen) + 1, y);
      var out := ErodeRow(pre.At(y - 1), pre.At(y), pre.At(y + 1), p.padded);
      ErodedRow(p, y, out);
      SlotsDiffer(2, y - 1, y);
      tmp.Put(y, out);
      if iy % 2 == 1 {
        var b := yb0 + iy / 2;
        var sums := SumBlocks(p, b, tmp.At(y - 1), out);
        forall c | yb0 <= c < b
          ensures Slot(aqMap.rows.Length, c) != Slot(aqMap.rows.Length, b)
        {
          SlotsDiffer(aqMap.rows.Length, c, b);
        }
        aqMap.Put(b, sums);
      }
    }
  }

  lemma ErodedRow(p: Image, y: nat, out: Line)
    requires p.Valid() && |out| == p.padded
    requires forall x :: 0 <= x < p.padded ==> out[x] == Erode(PreRow(p, y - 1), PreRow(p, y), PreRow(p, y + 1), x)
    ensures IsErodedRow(p, y, out)
  {
    hide Erode, PreRow;
  }

  // ---------------------------------------------------------------- the pipeline

  /** In a ring of whole blocks the rows of a block have neighbouring slots. */
  lemma SlotsOfBlock(n: nat, b: nat, dy: nat)
    requires n > 0 && n % 8 == 0 && dy < 8
    ensures Slot(n, 8 * b) + 8 <= n && Slot(n, 8 * b + dy) == Slot(n, 8 * b) + dy
  {
    var m, q, s := n / 8, (n + 8 * b) / n, Slot(n, 8 * b);
    QuotientAndRest(n, n + 8 * b);
    Regrouped(8, m, q);
    assert n + 8 * b == n * q + s && n == 8 * m;
    hide Slot;
    assert s == 8 * (m + b - m * q);
    Residue(n + (8 * b + dy), n, q, s + dy);
    SlotIs(n, 8 * b + dy);
  }

  lemma Regrouped(a: int, b: int, c: int)
    ensures (a * b) * c == a * (b * c)
  {
  }

  lemma SlotIs(n: nat, y: nat)
    requires n > 0
    ensures Slot(n, y) == (n + y) % n
  {
  }

  lemma InputRowAt(p: Image, rows: seq<Line>, lo: int, hi: int, y: nat)
    requires p.Valid() && InputWindow(p, rows, lo, hi) && lo <= y < hi && y < |p.rows|
    ensures |rows| > 0 && rows[Slot(|rows|, y)] == p.rows[y]
  {
    assert InputRow(p, y) == p.rows[y];
  }

  lemma BlockRowsTogether(p: Image, rows: seq<Line>, lo: int, hi: int, b: nat)
    requires p.Valid() && InputWindow(p, rows, lo, hi) && |rows| % 8 == 0 && lo <= 8 * b && 8 * b + 8 <= hi && 8 * b + 8 <= |p.rows|
    ensures |rows| > 0 && Slot(|rows|, 8 * b) + 8 <= |rows|
    ensures rows[Slot(|rows|, 8 * b)..Slot(|rows|, 8 * b) + 8] == BlockRows(p, b)
  {
    hide Slot, InputWindow;
    InputRowAt(p, rows, lo, hi, 8 * b);
    SlotsOfBlock(|rows|, b, 0);
    var s := Slot(|rows|, 8 * b);
    var there := rows[s..s + 8];
    forall dy | 0 <= dy < 8
      ensures there[dy] == BlockRows(p, b)[dy]
    {
      SlotsOfBlock(|rows|, b, dy);
      InputRowAt(p, rows, lo, hi, 8 * b + dy);
    }
  }

  /** The rows of the map are replaced by their modulated values. */
  method PerBlockModulations(p: Image, input: RowBuffer, yb0: nat, yblen: nat, aqMap: RowBuffer, ghost hi: int)
    requires p.Valid() && aqMap.rows.Length >= yblen && aqMap.rows.Length > 0 && yb0 + yblen <= p.blocks && input.rows != aqMap.rows
    requires InputWindow(p, input.rows[..], 8 * yb0, hi) && 8 * (yb0 + yblen) <= hi && input.rows.Length % 8 == 0
    requires forall b :: yb0 <= b < yb0 + yblen ==> aqMap.At(b) == SumRow(p, b)
    modifies aqMap.rows
    ensures forall b :: yb0 <= b < yb0 + yblen ==> aqMap.At(b) == ModulatedRow(p, b)
  {
    hide SumRow, ModulatedRow, Slot, InputWindow;
    for iy := 0 to yblen
      invariant input.rows[..] == old(input.rows[..])
      invariant forall b :: yb0 <= b < yb0 + iy ==> aqMap.At(b) == ModulatedRow(p, b)
      invariant forall b :: yb0 + iy <= b < yb0 + yblen ==> aqMap.At(b) == SumRow(p, b)
    {
      var b := yb0 + iy;
      BlockRowsTogether(p, input.rows[..], 8 * yb0, hi, b);
      var first := Slot(input.rows.Length, 8 * b);
      var row := ModulateRow(p, b, input.rows[first..first + 8], aqMap.At(b));
      OtherSlots(aqMap.rows.Length, yb0, yblen, b);
      aqMap.Put(b, row);
    }
  }

  lemma OtherSlots(n: nat, yb0: nat, yblen: nat, b: nat)
    requires n >= yblen && n > 0 && yb0 <= b < yb0 + yblen
    ensures forall c :: yb0 <= c < yb0 + yblen && c != b ==> Slot(n, c) != Slot(n, b)
  {
    hide Slot;
    forall c | yb0 <= c < yb0 + yblen && c != b
      ensures Slot(n, c) != Slot(n, b)
    {
      SlotsDiffer(n, if c < b then c else b, if c < b then b else c);
    }
  }

  method ModulateRow(p: Image, b: nat, rows: seq<Line>, line: Line) returns (out: Line)
    requires p.Valid() && rows == BlockRows(p, b) && line == SumRow(p, b)
    ensures out == ModulatedRow(p, b)
  {
    hide BlockSum;
    out := [];
    for bx := 0 to p.columns
      invariant |out| == bx && forall k :: 0 <= k < bx ==> out[k] == ModulatedAt(p, b, k)
    {
      out := out + [p.modulate(rows, bx, line[bx])];
    }
  }

  /** The last loop: the modulated rows become the field. */
  method RescaleRows(p: Image, yb0: nat, yblen: nat, aqMap: RowBuffer)
    requires p.Valid() && aqMap.rows.Length >= yblen && aqMap.rows.Length > 0
    requires forall b :: yb0 <= b < yb0 + yblen ==> aqMap.At(b) == ModulatedRow(p, b)
    modifies aqMap.rows
    ensures forall b :: yb0 <= b < yb0 + yblen ==> aqMap.At(b) == FieldRow(p, b)
  {
    hide ModulatedRow, FieldRow, Slot;
    for iy := 0 to yblen
      invariant forall b :: yb0 <= b < yb0 + iy ==> aqMap.At(b) == FieldRow(p, b)
      invariant forall b :: yb0 + iy <= b < yb0 + yblen ==> aqMap.At(b) == ModulatedRow(p, b)
    {
      var b := yb0 + iy;
      var row := RescaleRow(p, b, aqMap.At(b));
      OtherSlots(aqMap.rows.Length, yb0, yblen, b);
      aqMap.Put(b, row);
    }
  }

  method RescaleRow(p: Image, b: nat, line: Line) returns (out: Line)
    requires p.Valid() && line == ModulatedRow(p, b)
    ensures out == FieldRow(p, b)
  {
    hide ModulatedAt;
    out := [];
    for x := 0 to p.columns
      invariant |out| == x && forall k :: 0 <= k < x ==> out[k] == FieldAt(p, b, k)
    {
      var strength := 0.6 / line[x] - 1.0;
      out := out + [if strength > 0.0 then strength else 0.0];
    }
  }

  /** What the rows of one iMCU row are, and which of them is the first and the last. */
  lemma RowGroups(i: nat, total: nat, v: nat, blocks: nat)
    requires i < total && v >= 1 && blocks == total * v
    ensures i * v + v <= blocks && (i + 1 == total <==> i * v + v == blocks) && (i == 0 <==> i * v == 0)
    ensures (i + 1) * v == i * v + v
  {
    Increases(i + 1, total, v);
    Increases(0, i, v);
  }

  lemma Increases(a: nat, b: nat, v: nat)
    requires v >= 1 && a <= b
    ensures a * v <= b * v && (a < b ==> a * v < b * v)
  {
  }

  /** The state of the compressor that the pipeline uses. */
  class Compressor {
    const p: Image
    const maxVSampFactor: nat
    const totalIMCURows: nat
    const inputBuffer: RowBuffer
    const preErosion: RowBuffer
    const fuzzyErosionTmp: RowBuffer
    const quantField: RowBuffer
    const diffBuffer: array<real>
    var nextIMCURow: nat
    var nextInputRow: nat

    /** The rings are as large as the compressor allocates them. */
    constructor (p: Image, v: nat, total: nat)
      requires p.Valid() && v >= 1 && total >= 1 && p.blocks == total * v
      ensures this.p == p && maxVSampFactor == v && totalIMCURows == total
      ensures Valid() && nextIMCURow == 0 && nextInputRow == 0 && fresh(Buffers())
    {
      this.p, maxVSampFactor, totalIMCURows := p, v, total;
      inputBuffer := new RowBuffer(24 * v, 8 * p.columns + 2);
      preErosion := new RowBuffer(6 * v, p.padded + 2);
      fuzzyErosionTmp := new RowBuffer(2, p.padded);
      quantField := new RowBuffer(v, p.columns);
      diffBuffer := new real[8 * p.columns + 8](_ => 0.0);
      nextIMCURow, nextInputRow := 0, 0;
      new;
    }

    ghost function Buffers(): set<object> {
      {inputBuffer.rows, preErosion.rows, fuzzyErosionTmp.rows, quantField.rows, diffBuffer}
    }

    /** The sizes that the pipeline needs: in particular 2v + 2 rows of pre-erosion. */
    ghost predicate Sized() {
      && p.Valid() && maxVSampFactor >= 1 && p.blocks == totalIMCURows * maxVSampFactor
      && inputBuffer.rows.Length >= 24 * maxVSampFactor && inputBuffer.rows.Length % 8 == 0 && preErosion.rows.Length >= 2 * maxVSampFactor + 2
      && fuzzyErosionTmp.rows.Length == 2 && quantField.rows.Length >= maxVSampFactor
      && diffBuffer.Length >= 8 * p.columns
      && inputBuffer.rows != preErosion.rows && inputBuffer.rows != fuzzyErosionTmp.rows && inputBuffer.rows != quantField.rows
      && preErosion.rows != fuzzyErosionTmp.rows && preErosion.rows != quantField.rows && fuzzyErosionTmp.rows != quantField.rows
    }

    /** Between two calls: the input rows that are still needed are in the ring, and so are the last two
        pre-erosion rows. */
    ghost predicate Valid()
      reads this, inputBuffer.rows, preErosion.rows
    {
      && Sized() && nextInputRow <= 8 * p.blocks && nextIMCURow <= totalIMCURows
      && InputWindow(p, inputBuffer.rows[..], 8 * (nextIMCURow * maxVSampFactor), nextInputRow)
      && (nextIMCURow > 0 ==>
            PreWindow(p, preErosion.rows[..], 2 * (nextIMCURow * maxVSampFactor) - 1, 2 * (nextIMCURow * maxVSampFactor) + 1))
    }

    /** The caller has read two iMCU rows ahead, or all rows. */
    ghost predicate ReadAhead()
      reads this
    {
      Sized() && nextInputRow == Arithmetic.Min(8 * p.blocks, 8 * (nextIMCURow * maxVSampFactor) + 16 * maxVSampFactor)
    }

    method ReadInputRow()
      requires Valid() && nextInputRow < 8 * p.blocks
      requires 8 * (nextIMCURow * maxVSampFactor) <= nextInputRow < 8 * (nextIMCURow * maxVSampFactor) + 16 * maxVSampFactor
      modifies this`nextInputRow, inputBuffer.rows
      ensures Valid() && nextInputRow == old(nextInputRow) + 1
    {
      hide PreWindow, InputWindow, Slot;
      InputRing(p, inputBuffer.rows[..], 8 * (nextIMCURow * maxVSampFactor), nextInputRow);
      InputPut(p, inputBuffer.rows[..], 8 * (nextIMCURow * maxVSampFactor), nextInputRow, nextInputRow);
      inputBuffer.Put(nextInputRow, p.rows[nextInputRow]);
      nextInputRow := nextInputRow + 1;
    }

    /** The rows above and below the image. */
    method RepeatInputEdges(ghost yb0: nat, first: bool, last: bool)
      requires Sized() && (first <==> yb0 == 0) && yb0 + maxVSampFactor <= p.blocks && (last <==> yb0 + maxVSampFactor == p.blocks)
      requires InputWindow(p, inputBuffer.rows[..], 8 * yb0, nextInputRow)
      requires nextInputRow == Arithmetic.Min(8 * p.blocks, 8 * yb0 + 16 * maxVSampFactor)
      modifies inputBuffer.rows
      ensures InputWindow(p, inputBuffer.rows[..], if first then -1 else 8 * yb0, if last then nextInputRow + 1 else nextInputRow)
    {
      hide PreWindow, InputWindow, Slot, PreRow;
      ghost var inLo := 8 * yb0;
      if first {
        FirstRowRepeats(p, inputBuffer.rows[..], 8 * yb0, nextInputRow);
        InputPut(p, inputBuffer.rows[..], inLo, nextInputRow, -1);
        inputBuffer.CopyRow(-1, 0);
        inLo := -1;
      }
      if last {
        var lastRow := p.blocks * 8 - 1;
        LastRowRepeats(p, inputBuffer.rows[..], inLo, nextInputRow);
        InputPut(p, inputBuffer.rows[..], inLo, nextInputRow, lastRow + 1);
        inputBuffer.CopyRow(lastRow + 1, lastRow);
      }
    }

    method RepeatPreEdges(ghost yb0: nat, ghost preHi: int, first: bool, last: bool)
      requires Sized() && (first <==> yb0 == 0) && (last <==> yb0 + maxVSampFactor == p.blocks)
      requires preHi == if last then 2 * p.blocks else 2 * (yb0 + maxVSampFactor) + 1
      requires PreWindow(p, preErosion.rows[..], if first then 0 else 2 * yb0 - 1, preHi)
      modifies preErosion.rows
      ensures PreWindow(p, preErosion.rows[..], 2 * yb0 - 1, 2 * (yb0 + maxVSampFactor) + 1)
    {
      hide PreWindow, InputWindow, Slot, PreRow;
      if first {
        FirstPreRowRepeats(p, preErosion.rows[..], preHi);
        PrePut(p, preErosion.rows[..], 0, preHi, -1);
        preErosion.CopyRow(-1, 0);
      }
      if last {
        var lastRow := p.blocks * 2 - 1;
        LastPreRowRepeats(p, preErosion.rows[..], 2 * yb0 - 1, preHi);
        PrePut(p, preErosion.rows[..], 2 * yb0 - 1, preHi, lastRow + 1);
        preErosion.CopyRow(lastRow + 1, lastRow);
      }
    }

    /** The windows of rows: pre-erosion is half a block ahead of the group at its lower edge. */
    method ComputePreErosionRows(yb0: nat, first: bool, last: bool)
      requires Sized() && (first <==> yb0 == 0) && yb0 + maxVSampFactor <= p.blocks && (last <==> yb0 + maxVSampFactor == p.blocks)
      requires InputWindow(p, inputBuffer.rows[..], 8 * yb0, nextInputRow)
      requires nextInputRow == Arithmetic.Min(8 * p.blocks, 8 * yb0 + 16 * maxVSampFactor)
      requires !first ==> PreWindow(p, preErosion.rows[..], 2 * yb0 - 1, 2 * yb0 + 1)
      modifies inputBuffer.rows, preErosion.rows, diffBuffer
      ensures InputWindow(p, inputBuffer.rows[..], 8 * yb0, nextInputRow)
      ensures PreWindow(p, preErosion.rows[..], 2 * yb0 - 1, 2 * (yb0 + maxVSampFactor) + 1)
    {
      hide PreWindow, InputWindow, Slot, PreRow;
      RepeatInputEdges(yb0, first, last);
      ghost var inLo, inHi := if first then -1 else 8 * yb0, if last then nextInputRow + 1 else nextInputRow;
      var y0, ylen := yb0 * 8, maxVSampFactor * 8;
      if y0 == 0 {
        ylen := ylen + 4;
      } else {
        y0 := y0 + 4;
      }
      if last {
        ylen := ylen - 4;
      }
      GroupWindow(yb0, maxVSampFactor, y0, ylen, first, last);
      if first {
        EmptyPreWindow(p, preErosion.rows[..]);
      }
      NarrowInput(p, inputBuffer.rows[..], inLo, inHi, y0 - 1, y0 + ylen + 1);
      ComputePreErosion(p, inputBuffer, y0, ylen, diffBuffer, preErosion, if first then 0 else 2 * yb0 - 1);
      NarrowInput(p, inputBuffer.rows[..], inLo, inHi, 8 * yb0, nextInputRow);
      RepeatPreEdges(yb0, (y0 + ylen) / 4, first, last);
    }

    /** The field rows of one iMCU row. */
    method ComputeAdaptiveQuantField()
      requires Valid() && ReadAhead() && nextIMCURow < totalIMCURows
      modifies Buffers()
      ensures InputWindow(p, inputBuffer.rows[..], 8 * (nextIMCURow * maxVSampFactor), nextInputRow)
      ensures var yb0 := nextIMCURow * maxVSampFactor;
              && PreWindow(p, preErosion.rows[..], 2 * yb0 - 1, 2 * (yb0 + maxVSampFactor) + 1)
              && forall b :: yb0 <= b < yb0 + maxVSampFactor ==> quantField.At(b) == FieldRow(p, b)
    {
      hide PreWindow, InputWindow, Slot, PreRow, SumRow, ModulatedRow, FieldRow;
      var yb0, yblen := nextIMCURow * maxVSampFactor, maxVSampFactor;
      RowGroups(nextIMCURow, totalIMCURows, maxVSampFactor, p.blocks);
      ComputePreErosionRows(yb0, nextIMCURow == 0, nextIMCURow + 1 == totalIMCURows);
      FuzzyErosion(p, preErosion, yb0, yblen, fuzzyErosionTmp, quantField);
      PerBlockModulations(p, inputBuffer, yb0, yblen, quantField, nextInputRow);
      RescaleRows(p, yb0, yblen, quantField);
    }

    /** One iMCU row, and the rows of the field that it leaves in the map. */
    method ProcessIMCURow() returns (field: seq<Line>)
      requires Valid() && ReadAhead() && nextIMCURow < totalIMCURows
      modifies this`nextIMCURow, Buffers()
      ensures Valid() && nextIMCURow == old(nextIMCURow) + 1
      ensures |field| == maxVSampFactor
      ensures forall k :: 0 <= k < maxVSampFactor ==> field[k] == FieldRow(p, old(nextIMCURow) * maxVSampFactor + k)
    {
      hide Slot, PreRow, InputRow, FieldRow;
      RowGroups(nextIMCURow, totalIMCURows, maxVSampFactor, p.blocks);
      ComputeAdaptiveQuantField();
      field := [];
      ghost var yb0 := nextIMCURow * maxVSampFactor;
      for k := 0 to maxVSampFactor
        invariant |field| == k && forall j :: 0 <= j < k ==> field[j] == FieldRow(p, yb0 + j)
      {
        field := field + [quantField.At(nextIMCURow * maxVSampFactor + k)];
      }
      nextIMCURow := nextIMCURow + 1;
    }

    /** The whole image, as the compressor schedules it. */
    method ProcessAllRows() returns (field: seq<Line>)
      requires Valid() && nextIMCURow == 0 && nextInputRow == 0
      modifies this, Buffers()
      ensures |field| == p.blocks && forall b :: 0 <= b < p.blocks ==> field[b] == FieldRow(p, b)
    {
      hide FieldRow, InputWindow, PreWindow;
      field := [];
      while nextIMCURow < totalIMCURows
        invariant Valid() && |field| == nextIMCURow * maxVSampFactor
        invariant nextInputRow == Arithmetic.Min(8 * p.blocks, if nextIMCURow == 0 then 0 else 8 * (nextIMCURow * maxVSampFactor) + 8 * maxVSampFactor)
        invariant forall b :: 0 <= b < |field| ==> field[b] == FieldRow(p, b)
        decreases totalIMCURows - nextIMCURow
      {
        RowGroups(nextIMCURow, totalIMCURows, maxVSampFactor, p.blocks);
        ghost var i := nextIMCURow;
        while nextInputRow < Arithmetic.Min(8 * p.blocks, 8 * (nextIMCURow * maxVSampFactor) + 16 * maxVSampFactor)
          invariant Valid() && nextIMCURow == i
          invariant 8 * (i * maxVSampFactor) <= nextInputRow <= Arithmetic.Min(8 * p.blocks, 8 * (i * maxVSampFactor) + 16 * maxVSampFactor)
        {
          ReadInputRow();
        }
        var rows := ProcessIMCURow();
        field := field + rows;
      }
    }
  }

  /** An image of one column of blocks whose rows are 0, 1, 2, ..., with the sample itself as its difference. */
  function Ramp(blocks: nat): (p: Image)
    requires blocks > 0
    ensures p.Valid() && p.blocks == blocks && p.columns == 1 && p.padded == 2
  {
    Image(1, blocks, 2, seq(8 * blocks, y requires 0 <= y < 8 * blocks => seq(10, _ => y as real)),
          (sample, right, left, top, bottom) => sample, (rows, x, v) => 1.0)
  }

  lemma RampRows(blocks: nat, y: nat)
    requires y < 8 * blocks
    ensures forall c: nat :: c < 8 ==> DifferenceAt(Ramp(blocks), y, c) == y as real
  {
  }

  lemma RampPreErosion(blocks: nat, q: nat, x: nat)
    requires q < 2 * blocks && x < 2
    ensures PreErosion(Ramp(blocks), q, x) == (16 * q + 6) as real
  {
    var p := Ramp(blocks);
    RampRows(blocks, 4 * q);
    RampRows(blocks, 4 * q + 1);
    RampRows(blocks, 4 * q + 2);
    RampRows(blocks, 4 * q + 3);
    hide DifferenceAt;
    forall c: nat | c < 8
      ensures ColumnSum(p, q, 4, c) == (16 * q + 6) as real
    {
      assert ColumnSum(p, q, 1, c) == DifferenceAt(p, 4 * q, c) == (4 * q) as real;
      assert ColumnSum(p, q, 2, c) == DifferenceAt(p, 4 * q + 1, c) + ColumnSum(p, q, 1, c);
      assert ColumnSum(p, q, 3, c) == DifferenceAt(p, 4 * q + 2, c) + ColumnSum(p, q, 2, c);
      assert ColumnSum(p, q, 4, c) == DifferenceAt(p, 4 * q + 3, c) + ColumnSum(p, q, 3, c);
    }
  }

  lemma SlotsClash(n: nat)
    requires n > 0
    ensures Slot(n, -1) == Slot(n, n - 1) == n - 1
    ensures n == 1 ==> Slot(n, 0) == Slot(n, 1)
  {
    Residue(n - 1, n, 0, n - 1);
    Residue(2 * n - 1, n, 1, n - 1);
    if n == 1 {
      Residue(1, 1, 1, 0);
      Residue(2, 1, 2, 0);
    }
  }

  /** Fewer than 2v + 2 rows would not do: whatever a shorter ring holds, one of the rows -1 .. 2v that are read for
      the first group is not the pre-erosion row of this image. */
  lemma SmallerRingFails(v: nat, n: nat, rows: seq<Line>)
    requires v >= 1 && 1 <= n <= 2 * v + 1 && |rows| == n
    ensures exists q :: -1 <= q <= 2 * v && rows[Slot(n, q)] != PreRow(Ramp(v), q)
  {
    var a, b := if n == 1 then 0 else -1, if n == 1 then 1 else n - 1;
    SlotsClash(n);
    var p := Ramp(v);
    RampPreErosion(v, Clamp(a, 2 * v), 0);
    RampPreErosion(v, Clamp(b, 2 * v), 0);
    hide Slot, PreErosion;
    assert PreRow(p, a)[0] == PreErosion(p, Clamp(a, 2 * v), Clamp(-1, 2)) && PreRow(p, b)[0] == PreErosion(p, Clamp(b, 2 * v), Clamp(-1, 2));
    assert PreRow(p, a) != PreRow(p, b) && Slot(n, a) == Slot(n, b);
    assert rows[Slot(n, a)] != PreRow(p, a) || rows[Slot(n, b)] != PreRow(p, b);
  }

  /** The input rows y0 .. y0 + ylen - 1 of a group are whole quarters: those from half a block below its upper edge
      to half a block below its lower edge, or to the edges of the image. */
  lemma GroupWindow(yb0: nat, v: nat, y0: nat, ylen: nat, first: bool, last: bool)
    requires y0 == (if first then 0 else 8 * yb0 + 4) && (first <==> yb0 == 0)
    requires ylen == (if first then 8 * v + 4 else 8 * v) - (if last then 4 else 0) && v >= 1
    ensures y0 % 4 == 0 && ylen % 4 == 0 && y0 / 4 == (if first then 0 else 2 * yb0 + 1)
    ensures (y0 + ylen) / 4 == (if last then 2 * (yb0 + v) else 2 * (yb0 + v) + 1)
  {
  }

  lemma InputRing(p: Image, rows: seq<Line>, lo: int, hi: int)
    requires p.Valid() && InputWindow(p, rows, lo, hi)
    ensures |rows| > 0 && forall y :: 0 <= y < |p.rows| ==> InputRow(p, y) == p.rows[y]
  {
  }

  lemma NarrowInput(p: Image, rows: seq<Line>, lo: int, hi: int, lo2: int, hi2: int)
    requires p.Valid() && InputWindow(p, rows, lo, hi) && lo <= lo2 && hi2 <= hi
    ensures InputWindow(p, rows, lo2, hi2)
  {
  }

  lemma EmptyPreWindow(p: Image, rows: seq<Line>)
    requires p.Valid() && |rows| > 0
    ensures PreWindow(p, rows, 0, 0)
  {
  }

  lemma FirstRowRepeats(p: Image, rows: seq<Line>, lo: int, hi: int)
    requires p.Valid() && InputWindow(p, rows, lo, hi) && lo == 0 < hi
    ensures |rows| > 0 && rows[Slot(|rows|, 0)] == InputRow(p, -1)
  {
    assert InputRow(p, -1) == InputRow(p, 0);
  }

  lemma LastRowRepeats(p: Image, rows: seq<Line>, lo: int, hi: int)
    requires p.Valid() && InputWindow(p, rows, lo, hi) && hi == |p.rows| && lo < hi
    ensures |rows| > 0 && rows[Slot(|rows|, hi - 1)] == InputRow(p, hi)
  {
    assert InputRow(p, hi - 1) == InputRow(p, hi);
  }

  lemma SamePreRow(p: Image, q: int, r: int)
    requires p.Valid() && Clamp(q, 2 * p.blocks) == Clamp(r, 2 * p.blocks)
    ensures PreRow(p, q) == PreRow(p, r)
  {
    hide PreErosion;
    forall x | 0 <= x < p.padded + 2
      ensures PreRow(p, q)[x] == PreRow(p, r)[x]
    {
    }
  }

  lemma FirstPreRowRepeats(p: Image, rows: seq<Line>, hi: int)
    requires p.Valid() && PreWindow(p, rows, 0, hi) && 0 < hi
    ensures |rows| > 0 && rows[Slot(|rows|, 0)] == PreRow(p, -1)
  {
    SamePreRow(p, -1, 0);
  }

  lemma LastPreRowRepeats(p: Image, rows: seq<Line>, lo: int, hi: int)
    requires p.Valid() && PreWindow(p, rows, lo, hi) && hi == 2 * p.blocks && lo < hi
    ensures |rows| > 0 && rows[Slot(|rows|, hi - 1)] == PreRow(p, hi)
  {
    SamePreRow(p, hi - 1, hi);
  }
}
