/** The adaptive quantization field of a whole image (lib/jpegli/adaptive_quantization.cc): local differences,
    pre-erosion at a quarter of the resolution, fuzzy erosion, and one value for each block. The per-pixel
    masks are parameters; arithmetic is exact. */
module AdaptiveField {
  import opened FourSmallest

  type Line = seq<real>

  /** A power of two, scaled and shifted by non-negative numbers that are not both 0. */
  type Positive = x: real | x > 0.0 witness 1.0

  /** The image: H = 8 * blocks rows of W = 8 * columns samples, each with one more sample at either end. */
  datatype Image = Image(
    columns: nat, blocks: nat, padded: nat, rows: seq<Line>,
    diff: (real, real, real, real, real) -> real,      // sample, right, left, top, bottom
    modulate: (seq<Line>, nat, real) -> Positive)      // the eight rows of a block, its column, eroded value
  {
    predicate Valid() {
      && columns > 0 && blocks > 0 && padded >= 2 * columns && |rows| == 8 * blocks
      && forall y :: 0 <= y < |rows| ==> |rows[y]| == 8 * columns + 2
    }
  }

  /** The nearest index inside 0 .. n - 1. */
  function Clamp(y: int, n: nat): (c: nat)
    requires n > 0
    ensures c < n && (0 <= y < n ==> c == y)
  {
    if y < 0 then 0 else if y >= n then n - 1 else y
  }

  /** Input rows; those above and below the image repeat its first and last row. */
  function InputRow(p: Image, y: int): (r: Line)
    requires p.Valid()
    ensures |r| == 8 * p.columns + 2
  {
    p.rows[Clamp(y, |p.rows|)]
  }

  /** The masked difference of the sample at column x, from three rows. */
  function Difference(p: Image, above: Line, row: Line, below: Line, x: nat): real
    requires |above| == |row| == |below| == 8 * p.columns + 2 && x < 8 * p.columns
  {
    p.diff(row[x + 1], row[x + 2], row[x], above[x + 1], below[x + 1])
  }

  function DifferenceAt(p: Image, y: nat, x: nat): real
    requires p.Valid() && x < 8 * p.columns
  {
    Difference(p, InputRow(p, y - 1), InputRow(p, y), InputRow(p, y + 1), x)
  }

  /** The differences of the first k rows of quarter row q, in one column. */
  function ColumnSum(p: Image, q: nat, k: nat, x: nat): real
    requires p.Valid() && x < 8 * p.columns && k >= 1
  {
    if k == 1 then DifferenceAt(p, 4 * q, x) else DifferenceAt(p, 4 * q + k - 1, x) + ColumnSum(p, q, k - 1, x)
  }

  function PreErosion(p: Image, q: nat, x: nat): real
    requires p.Valid() && x < 2 * p.columns
  {
    (ColumnSum(p, q, 4, 4 * x) + ColumnSum(p, q, 4, 4 * x + 1) + ColumnSum(p, q, 4, 4 * x + 2) + ColumnSum(p, q, 4, 4 * x + 3)) * 0.25
  }

  /** Pre-erosion rows, repeated beyond every edge; entry x + 1 holds column x. */
  function PreRow(p: Image, q: int): (r: Line)
    requires p.Valid()
    ensures |r| == p.padded + 2
  {
    seq(p.padded + 2, x requires 0 <= x < p.padded + 2 => PreErosion(p, Clamp(q, 2 * p.blocks), Clamp(x - 1, 2 * p.columns)))
  }

  /** The neighbourhood of column x in three rows, in the order in which the source reads it. */
  function Nine(above: Line, row: Line, below: Line, x: nat): seq<real>
    requires |above| == |row| == |below| && x + 2 < |row|
  {
    [row[x + 1], row[x], row[x + 2], above[x], above[x + 1], above[x + 2], below[x], below[x + 1], below[x + 2]]
  }

  /** The weighted sum of the four smallest of them. */
  function Erode(above: Line, row: Line, below: Line, x: nat): real
    requires |above| == |row| == |below| && x + 2 < |row|
  {
    var s := Sort(Nine(above, row, below, x));
    (0.125 * s[0] + 0.075 * s[1]) + (0.06 * s[2] + 0.05 * s[3])
  }

  function Eroded(p: Image, q: int, x: nat): real
    requires p.Valid() && x < p.padded
  {
    Erode(PreRow(p, q - 1), PreRow(p, q), PreRow(p, q + 1), x)
  }

  /** The four eroded values of a block. */
  function BlockSum(p: Image, b: nat, bx: nat): real
    requires p.Valid() && bx < p.columns
  {
    Eroded(p, 2 * b + 1, 2 * bx) + Eroded(p, 2 * b + 1, 2 * bx + 1) + Eroded(p, 2 * b, 2 * bx) + Eroded(p, 2 * b, 2 * bx + 1)
  }

  function SumRow(p: Image, b: nat): (r: Line)
    requires p.Valid()
    ensures |r| == p.columns
  {
    seq(p.columns, bx requires 0 <= bx < p.columns => BlockSum(p, b, bx))
  }

  /** From the multiplicative field to the strength of quantization. */
  function Rescaled(x: Positive): real {
    if 0.6 / x - 1.0 > 0.0 then 0.6 / x - 1.0 else 0.0
  }

  /** The block sums, modulated. */
  function ModulatedAt(p: Image, b: nat, bx: nat): Positive
    requires p.Valid() && bx < p.columns
  {
    p.modulate(BlockRows(p, b), bx, BlockSum(p, b, bx))
  }

  /** The rows of a block row inside the image. */
  function BlockRows(p: Image, b: nat): seq<Line> {
    if 8 * b + 8 <= |p.rows| then p.rows[8 * b..8 * b + 8] else []
  }

  function ModulatedRow(p: Image, b: nat): (r: Line)
    requires p.Valid()
    ensures |r| == p.columns && forall bx :: 0 <= bx < |r| ==> r[bx] > 0.0
  {
    seq(p.columns, bx requires 0 <= bx < p.columns => ModulatedAt(p, b, bx))
  }

  /** The field: the modulated sums, rescaled. */
  function FieldAt(p: Image, b: nat, bx: nat): real
    requires p.Valid() && bx < p.columns
  {
    Rescaled(ModulatedAt(p, b, bx))
  }

  function FieldRow(p: Image, b: nat): (r: Line)
    requires p.Valid()
    ensures |r| == p.columns
  {
    seq(p.columns, bx requires 0 <= bx < p.columns => FieldAt(p, b, bx))
  }

  // ---------------------------------------------------------------- what the field reads

  function Four(row: Line, k: nat): real
    requires k + 3 < |row|
  {
    row[k] + row[k + 1] + row[k + 2] + row[k + 3]
  }

  /** The sum of four by four samples. */
  function Sixteen(row0: Line, row1: Line, row2: Line, row3: Line, k: nat): real
    requires k + 3 < |row0| == |row1| == |row2| == |row3|
  {
    Four(row0, k) + Four(row1, k) + Four(row2, k) + Four(row3, k)
  }

  lemma ColumnsOfQuarter(p: Image, q: nat, x: nat)
    requires p.Valid() && x < 8 * p.columns
    ensures ColumnSum(p, q, 4, x)
            == DifferenceAt(p, 4 * q, x) + DifferenceAt(p, 4 * q + 1, x) + DifferenceAt(p, 4 * q + 2, x) + DifferenceAt(p, 4 * q + 3, x)
  {
    hide DifferenceAt;
    assert ColumnSum(p, q, 2, x) == DifferenceAt(p, 4 * q + 1, x) + ColumnSum(p, q, 1, x);
    assert ColumnSum(p, q, 3, x) == DifferenceAt(p, 4 * q + 2, x) + ColumnSum(p, q, 2, x);
  }

  /** The differences of row y are the samples of this row, moved by k columns. */
  predicate Copies(p: Image, y: nat, row: Line, k: nat)
    requires p.Valid() && k <= 2
  {
    |row| == 8 * p.columns + 2 && forall x :: 0 <= x < 8 * p.columns ==> DifferenceAt(p, y, x) == row[x + k]
  }

  lemma QuarterOf(p: Image, q: nat, x: nat, row0: Line, row1: Line, row2: Line, row3: Line, k: nat)
    requires p.Valid() && x < 2 * p.columns && k <= 2
    requires Copies(p, 4 * q, row0, k) && Copies(p, 4 * q + 1, row1, k) && Copies(p, 4 * q + 2, row2, k) && Copies(p, 4 * q + 3, row3, k)
    ensures 4.0 * PreErosion(p, q, x) == Sixteen(row0, row1, row2, row3, 4 * x + k)
  {
    hide DifferenceAt, ColumnSum;
    ColumnsOfQuarter(p, q, 4 * x);
    ColumnsOfQuarter(p, q, 4 * x + 1);
    ColumnsOfQuarter(p, q, 4 * x + 2);
    ColumnsOfQuarter(p, q, 4 * x + 3);
  }

  /** The five arguments of the difference are the sample and its neighbours to the right, to the left, above and below,
      each over the sixteen samples of its square; the first and the last row are repeated. */
  lemma PreErosionReads(p: Image, q: nat, x: nat)
    requires p.Valid() && q < 2 * p.blocks && x < 2 * p.columns
    ensures var y, before := 4 * q, p.rows[if q == 0 then 0 else 4 * q - 1];
            var after := p.rows[if q == 2 * p.blocks - 1 then 4 * q + 3 else 4 * q + 4];
            var (row0, row1, row2, row3) := (p.rows[y], p.rows[y + 1], p.rows[y + 2], p.rows[y + 3]);
            var four := 4.0 * PreErosion(p, q, x);
      && ((forall a, b, c, d, e :: p.diff(a, b, c, d, e) == a) ==> four == Sixteen(row0, row1, row2, row3, 4 * x + 1))
      && ((forall a, b, c, d, e :: p.diff(a, b, c, d, e) == b) ==> four == Sixteen(row0, row1, row2, row3, 4 * x + 2))
      && ((forall a, b, c, d, e :: p.diff(a, b, c, d, e) == c) ==> four == Sixteen(row0, row1, row2, row3, 4 * x))
      && ((forall a, b, c, d, e :: p.diff(a, b, c, d, e) == d) ==> four == Sixteen(before, row0, row1, row2, 4 * x + 1))
      && ((forall a, b, c, d, e :: p.diff(a, b, c, d, e) == e) ==> four == Sixteen(row1, row2, row3, after, 4 * x + 1))
  {
    hide PreErosion, Sixteen;
    var y, before := 4 * q, p.rows[if q == 0 then 0 else 4 * q - 1];
    var after := p.rows[if q == 2 * p.blocks - 1 then 4 * q + 3 else 4 * q + 4];
    var (row0, row1, row2, row3) := (p.rows[y], p.rows[y + 1], p.rows[y + 2], p.rows[y + 3]);
    if forall a, b, c, d, e :: p.diff(a, b, c, d, e) == a {
      QuarterOf(p, q, x, row0, row1, row2, row3, 1);
    }
    if forall a, b, c, d, e :: p.diff(a, b, c, d, e) == b {
      QuarterOf(p, q, x, row0, row1, row2, row3, 2);
    }
    if forall a, b, c, d, e :: p.diff(a, b, c, d, e) == c {
      QuarterOf(p, q, x, row0, row1, row2, row3, 0);
    }
    if forall a, b, c, d, e :: p.diff(a, b, c, d, e) == d {
      QuarterOf(p, q, x, before, row0, row1, row2, 1);
    }
    if forall a, b, c, d, e :: p.diff(a, b, c, d, e) == e {
      QuarterOf(p, q, x, row1, row2, row3, after, 1);
    }
  }

  /** The four smallest values are taken from all nine values around a sample. */
  lemma NineIsWindow(above: Line, row: Line, below: Line, x: nat)
    requires |above| == |row| == |below| && x + 2 < |row|
    ensures multiset(Nine(above, row, below, x)) == multiset(row[x..x + 3]) + multiset(above[x..x + 3]) + multiset(below[x..x + 3])
  {
    NineInParts(above, row, below, x);
    hide Nine;
    ThreeSwapped(row, x);
  }

  lemma NineInParts(above: Line, row: Line, below: Line, x: nat)
    requires |above| == |row| == |below| && x + 2 < |row|
    ensures Nine(above, row, below, x) == [row[x + 1], row[x], row[x + 2]] + above[x..x + 3] + below[x..x + 3]
  {
  }

  lemma ThreeSwapped(row: Line, x: nat)
    requires x + 2 < |row|
    ensures multiset([row[x + 1], row[x], row[x + 2]]) == multiset(row[x..x + 3])
  {
    FirstTwoSwapped(row[x + 1], row[x], row[x + 2]);
    assert row[x..x + 3] == [row[x], row[x + 1], row[x + 2]];
  }

  lemma FirstTwoSwapped(a: real, b: real, c: real)
    ensures multiset([a, b, c]) == multiset([b, a, c])
  {
    assert [a, b, c] == [a, b] + [c] && [b, a, c] == [b, a] + [c];
    assert multiset([a, b]) == multiset([b, a]);
  }

  /** The field is the strength at which the modulated value times one more than it is 0.6, as far as that is not negative. */
  lemma FieldSolves(p: Image, b: nat, bx: nat)
    requires p.Valid() && bx < p.columns
    ensures var s, x := FieldAt(p, b, bx), ModulatedAt(p, b, bx); s >= 0.0 && (if x <= 0.6 then x * (s + 1.0) == 0.6 else s == 0.0)
  {
    hide ModulatedAt;
    var x := ModulatedAt(p, b, bx);
    Quotient(x);
  }

  lemma Quotient(x: Positive)
    ensures x * (0.6 / x) == 0.6 && (0.6 / x >= 1.0 <==> x <= 0.6)
  {
    var d := 0.6 / x;
    assert x * d == 0.6;
    assert x * (d - 1.0) == 0.6 - x;
    assert d > 1.0 ==> x * (d - 1.0) > 0.0;
    assert d < 1.0 ==> x * (1.0 - d) > 0.0;
  }
}
