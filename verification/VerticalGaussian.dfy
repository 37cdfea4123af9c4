/** The vertical pass of tools/gauss_blur.cc: strips of columns, whose last outputs are kept in rings of four
    rows; and the two passes together. */
module VerticalGaussian {
  import opened Arithmetic
  import opened GaussianRecurrence
  import opened HorizontalGaussian

  const RING := 4

  function Column(rows: seq<seq<real>>, x: nat): (c: seq<real>)
    requires forall y :: 0 <= y < |rows| ==> x < |rows[y]|
    ensures |c| == |rows|
  {
    seq(|rows|, y requires 0 <= y < |rows| => rows[y][x])
  }

  predicate Wide(rows: seq<seq<real>>, width: nat) {
    forall y :: 0 <= y < |rows| ==> |rows[y]| == width
  }

  /** What is added up for one output row: one row at the borders, two in between. */
  datatype Source = SingleInput(pos: seq<real>) | TwoInputs(pos1: seq<real>, pos2: seq<real>)

  function SourceAt(s: Source, idx: nat): real
    requires if s.SingleInput? then idx < |s.pos| else idx < |s.pos1| && idx < |s.pos2|
  {
    if s.SingleInput? then s.pos[idx] else s.pos1[idx] + s.pos2[idx]
  }

  /** The source gives the input of output n in every column of the strip. */
  ghost predicate Feeds(s: Source, rows: seq<seq<real>>, x: nat, lanes: nat, N: nat, n: int, width: nat)
    requires Wide(rows, width) && x + lanes <= width
  {
    && (if s.SingleInput? then |s.pos| == lanes else |s.pos1| == |s.pos2| == lanes)
    && forall j :: 0 <= j < lanes ==> SourceAt(s, j) == Input(Column(rows, x + j), N, n)
  }

  /** One row of a ring holds output n of one term. */
  ghost predicate RingRow(y: array2<real>, slot: nat, t: Term, rows: seq<seq<real>>, x: nat, lanes: nat, N: nat, n: int, width: nat)
    requires Wide(rows, width) && x + lanes <= width && slot < y.Length0 && y.Length1 == lanes
    reads y
  {
    forall j :: 0 <= j < lanes ==> y[slot, j] == Response(t, Column(rows, x + j), N, n)
  }

  /** The rings hold outputs n - 1 and n - 2 of one term. */
  ghost predicate RingHolds(y: array2<real>, t: Term, rows: seq<seq<real>>, x: nat, lanes: nat, N: nat, n: int, width: nat)
    requires Wide(rows, width) && x + lanes <= width
    reads y
  {
    && y.Length0 == RING && y.Length1 == lanes
    && RingRow(y, (n - 1) % RING, t, rows, x, lanes, N, n - 1, width)
    && RingRow(y, (n - 2) % RING, t, rows, x, lanes, N, n - 2, width)
  }

  /** One term of one output row, lane by lane. */
  method TermRow(t: Term, s: Source, y: array2<real>, n: int, rows: seq<seq<real>>, x: nat, lanes: nat, N: nat, width: nat)
    requires Wide(rows, width) && x + lanes <= width && n + N > 0
    requires Feeds(s, rows, x, lanes, N, n, width) && RingHolds(y, t, rows, x, lanes, N, n, width)
    modifies y
    ensures RingHolds(y, t, rows, x, lanes, N, n + 1, width)
  {
    hide Response, Input, Column;
    var n0, n1, n2 := n % RING, (n - 1) % RING, (n - 2) % RING;
    assert n0 != n1 && n0 != n2;
    for j := 0 to lanes
      invariant forall k :: 0 <= k < lanes ==> y[n1, k] == old(y[n1, k]) && y[n2, k] == old(y[n2, k])
      invariant forall k :: 0 <= k < j ==> y[n0, k] == Response(t, Column(rows, x + k), N, n)
    {
      ResponseStep(t, Column(rows, x + j), N, n);
      y[n0, j] := t.n2 * SourceAt(s, j) + (-(t.d1 * y[n1, j]) - y[n2, j]);
    }
  }

  /** One output row of the strip: the sum of the three terms. */
  method VerticalBlock(f: Filter, s: Source, n: int, y1: array2<real>, y3: array2<real>, y5: array2<real>,
                       rows: seq<seq<real>>, x: nat, lanes: nat, width: nat) returns (out: seq<real>)
    requires Wide(rows, width) && x + lanes <= width && n + f.radius > 0 && y1 != y3 && y1 != y5 && y3 != y5
    requires Feeds(s, rows, x, lanes, f.radius, n, width)
    requires StripHolds(f, y1, y3, y5, rows, x, lanes, n, width)
    modifies y1, y3, y5
    ensures StripHolds(f, y1, y3, y5, rows, x, lanes, n + 1, width)
    ensures |out| == lanes && forall j :: 0 <= j < lanes ==> out[j] == Output(f, Column(rows, x + j), n)
  {
    hide Response, Input, Column, Feeds;
    TermRow(f.t1, s, y1, n, rows, x, lanes, f.radius, width);
    TermRow(f.t3, s, y3, n, rows, x, lanes, f.radius, width);
    TermRow(f.t5, s, y5, n, rows, x, lanes, f.radius, width);
    out := [];
    for j := 0 to lanes
      invariant |out| == j && forall k :: 0 <= k < j ==> out[k] == Output(f, Column(rows, x + k), n)
    {
      out := out + [y1[n % RING, j] + (y3[n % RING, j] + y5[n % RING, j])];
    }
  }

  ghost predicate StripHolds(f: Filter, y1: array2<real>, y3: array2<real>, y5: array2<real>, rows: seq<seq<real>>,
                             x: nat, lanes: nat, n: int, width: nat)
    requires Wide(rows, width) && x + lanes <= width
    reads y1, y3, y5
  {
    && RingHolds(y1, f.t1, rows, x, lanes, f.radius, n, width)
    && RingHolds(y3, f.t3, rows, x, lanes, f.radius, n, width)
    && RingHolds(y5, f.t5, rows, x, lanes, f.radius, n, width)
  }

  /** The piece of a row that a strip reads; zeros beyond the last row. */
  function Piece(rows: seq<seq<real>>, y: int, x: nat, lanes: nat, width: nat): (p: seq<real>)
    requires Wide(rows, width) && x + lanes <= width && y >= 0
    ensures |p| == lanes
  {
    if y < |rows| then rows[y][x..x + lanes] else seq(lanes, _ => 0.0)
  }

  lemma PieceSamples(rows: seq<seq<real>>, y: int, x: nat, lanes: nat, width: nat, j: nat)
    requires Wide(rows, width) && x + lanes <= width && y >= 0 && j < lanes
    ensures Piece(rows, y, x, lanes, width)[j] == Sample(Column(rows, x + j), y)
  {
  }

  lemma SingleFeeds(rows: seq<seq<real>>, x: nat, lanes: nat, N: nat, n: int, width: nat)
    requires Wide(rows, width) && x + lanes <= width && 1 - N <= n <= N && N >= 1
    ensures Feeds(SingleInput(Piece(rows, n + N - 1, x, lanes, width)), rows, x, lanes, N, n, width)
  {
    hide Piece, Column;
    var s := SingleInput(Piece(rows, n + N - 1, x, lanes, width));
    forall j | 0 <= j < lanes
      ensures SourceAt(s, j) == Input(Column(rows, x + j), N, n)
    {
      PieceSamples(rows, n + N - 1, x, lanes, width, j);
    }
  }

  lemma TwoFeed(rows: seq<seq<real>>, x: nat, lanes: nat, N: nat, n: int, width: nat)
    requires Wide(rows, width) && x + lanes <= width && N >= 1 && N + 1 <= n < |rows|
    ensures Feeds(TwoInputs(Piece(rows, n - N - 1, x, lanes, width), Piece(rows, n + N - 1, x, lanes, width)), rows, x, lanes, N, n, width)
  {
    hide Piece, Column;
    var s := TwoInputs(Piece(rows, n - N - 1, x, lanes, width), Piece(rows, n + N - 1, x, lanes, width));
    forall j | 0 <= j < lanes
      ensures SourceAt(s, j) == Input(Column(rows, x + j), N, n)
    {
      PieceSamples(rows, n - N - 1, x, lanes, width, j);
      PieceSamples(rows, n + N - 1, x, lanes, width, j);
    }
  }

  lemma StripAtRest(f: Filter, y1: array2<real>, y3: array2<real>, y5: array2<real>, rows: seq<seq<real>>,
                    x: nat, lanes: nat, width: nat)
    requires Wide(rows, width) && x + lanes <= width
    requires y1.Length0 == y3.Length0 == y5.Length0 == RING && y1.Length1 == y3.Length1 == y5.Length1 == lanes
    requires forall i, j :: 0 <= i < RING && 0 <= j < lanes ==> y1[i, j] == 0.0 && y3[i, j] == 0.0 && y5[i, j] == 0.0
    ensures StripHolds(f, y1, y3, y5, rows, x, lanes, 1 - f.radius, width)
  {
    hide Column;
  }

  /** Every column to the left of x is done down to row n. */
  ghost predicate Done(f: Filter, out: array2<real>, rows: seq<seq<real>>, x: nat, n: nat, width: nat)
    requires Wide(rows, width) && x <= width && n <= |rows| == out.Length0 && out.Length1 == width
    reads out
  {
    forall k, v :: 0 <= k < n && 0 <= v < x ==> out[k, v] == Output(f, Column(rows, v), k)
  }

  /** OutputStore: one row of the strip is written. */
  method StoreRow(f: Filter, line: seq<real>, out: array2<real>, n: nat, rows: seq<seq<real>>, x: nat, lanes: nat, width: nat)
    requires Wide(rows, width) && x + lanes <= width && n < |rows| == out.Length0 && out.Length1 == width
    requires Done(f, out, rows, x, |rows|, width) && StripDone(f, out, rows, x, lanes, n, width)
    requires |line| == lanes && forall j :: 0 <= j < lanes ==> line[j] == Output(f, Column(rows, x + j), n)
    modifies out
    ensures Done(f, out, rows, x, |rows|, width) && StripDone(f, out, rows, x, lanes, n + 1, width)
  {
    hide Output, Column;
    for j := 0 to lanes
      invariant forall k, v :: 0 <= k < |rows| && 0 <= v < width && (k != n || v < x) ==> out[k, v] == old(out[k, v])
      invariant forall v :: x <= v < x + j ==> out[n, v] == Output(f, Column(rows, v), n)
    {
      out[n, x + j] := line[j];
    }
  }

  ghost predicate StripDone(f: Filter, out: array2<real>, rows: seq<seq<real>>, x: nat, lanes: nat, n: nat, width: nat)
    requires Wide(rows, width) && x + lanes <= width && n <= |rows| == out.Length0 && out.Length1 == width
    reads out
  {
    forall k, v :: 0 <= k < n && x <= v < x + lanes ==> out[k, v] == Output(f, Column(rows, v), k)
  }

  /** A strip of columns, in four phases: warm-up, top border, interior, bottom border. */
  method VerticalStrip(f: Filter, rows: seq<seq<real>>, x: nat, lanes: nat, width: nat, out: array2<real>)
    requires f.radius >= 1 && Wide(rows, width) && x + lanes <= width && out.Length0 == |rows| && out.Length1 == width
    requires Done(f, out, rows, x, |rows|, width)
    modifies out
    ensures Done(f, out, rows, x + lanes, |rows|, width)
  {
    hide Response, Output, Input, Column, Feeds, StripHolds, Piece;
    var N, ysize := f.radius, |rows|;
    var y1, y3, y5 := new real[RING, lanes]((_, _) => 0.0), new real[RING, lanes]((_, _) => 0.0), new real[RING, lanes]((_, _) => 0.0);
    StripAtRest(f, y1, y3, y5, rows, x, lanes, width);
    var n := 1 - N;
    while n < 0
      invariant 1 - N <= n <= 0 && StripHolds(f, y1, y3, y5, rows, x, lanes, n, width)
      invariant fresh(y1) && fresh(y3) && fresh(y5) && Done(f, out, rows, x, |rows|, width)
    {
      SingleFeeds(rows, x, lanes, N, n, width);
      var _ := VerticalBlock(f, SingleInput(Piece(rows, n + N - 1, x, lanes, width)), n, y1, y3, y5, rows, x, lanes, width);
      n := n + 1;
    }
    while n < Min(N + 1, ysize)
      invariant 0 <= n <= Min(N + 1, ysize) && StripHolds(f, y1, y3, y5, rows, x, lanes, n, width)
      invariant fresh(y1) && fresh(y3) && fresh(y5)
      invariant Done(f, out, rows, x, |rows|, width) && StripDone(f, out, rows, x, lanes, n, width)
    {
      SingleFeeds(rows, x, lanes, N, n, width);
      var line := VerticalBlock(f, SingleInput(Piece(rows, n + N - 1, x, lanes, width)), n, y1, y3, y5, rows, x, lanes, width);
      StoreRow(f, line, out, n, rows, x, lanes, width);
      n := n + 1;
    }
    var prefetchRows := 8;
    while n < ysize - N + 1 - prefetchRows
      invariant Min(N + 1, ysize) <= n <= ysize && StripHolds(f, y1, y3, y5, rows, x, lanes, n, width)
      invariant fresh(y1) && fresh(y3) && fresh(y5)
      invariant Done(f, out, rows, x, |rows|, width) && StripDone(f, out, rows, x, lanes, n, width)
    {
      n := StripRow(f, rows, x, lanes, width, out, n, y1, y3, y5);
    }
    while n < ysize
      invariant Min(N + 1, ysize) <= n <= ysize && StripHolds(f, y1, y3, y5, rows, x, lanes, n, width)
      invariant fresh(y1) && fresh(y3) && fresh(y5)
      invariant Done(f, out, rows, x, |rows|, width) && StripDone(f, out, rows, x, lanes, n, width)
    {
      n := StripRow(f, rows, x, lanes, width, out, n, y1, y3, y5);
    }
  }

  /** A row with two inputs; the lower one may lie beyond the last row at the bottom border. */
  method StripRow(f: Filter, rows: seq<seq<real>>, x: nat, lanes: nat, width: nat, out: array2<real>, n: nat,
                  y1: array2<real>, y3: array2<real>, y5: array2<real>) returns (next: nat)
    requires f.radius >= 1 && Wide(rows, width) && x + lanes <= width && out.Length0 == |rows| && out.Length1 == width
    requires f.radius + 1 <= n < |rows| && StripHolds(f, y1, y3, y5, rows, x, lanes, n, width)
    requires y1 != y3 && y1 != y5 && y3 != y5 && out != y1 && out != y3 && out != y5
    requires Done(f, out, rows, x, |rows|, width) && StripDone(f, out, rows, x, lanes, n, width)
    modifies out, y1, y3, y5
    ensures next == n + 1 && StripHolds(f, y1, y3, y5, rows, x, lanes, next, width)
    ensures Done(f, out, rows, x, |rows|, width) && StripDone(f, out, rows, x, lanes, next, width)
  {
    hide Response, Output, Input, Column, Feeds, StripHolds, Piece, Done, StripDone;
    var top, bottom := n - f.radius - 1, n + f.radius - 1;
    TwoFeed(rows, x, lanes, f.radius, n, width);
    var line := VerticalBlock(f, TwoInputs(Piece(rows, top, x, lanes, width), Piece(rows, bottom, x, lanes, width)), n,
                              y1, y3, y5, rows, x, lanes, width);
    StoreRow(f, line, out, n, rows, x, lanes, width);
    next := n + 1;
  }

  // ---------------------------------------------------------------- the whole image

  lemma WholeVectors(L: nat, k: nat, w: nat)
    requires L * k < L * w
    ensures L * (k + 1) <= L * w && L * (k + 1) == L * k + L
  {
    Unscaled(L, k, w);
    Scaled(L, k + 1, w);
  }

  lemma MoreVectors(L: nat, k: nat, u: nat)
    ensures L * (k + u) == L * k + u * L
  {
  }

  /** All columns: wide strips first, then one vector at a time. Rows are padded to whole vectors. */
  method FastGaussianVertical(f: Filter, rows: seq<seq<real>>, xsize: nat, L: nat, unroll: nat, vectors: nat, out: array2<real>)
    requires f.radius >= 1 && L >= 1 && unroll >= 1 && xsize <= L * vectors
    requires Wide(rows, L * vectors) && out.Length0 == |rows| && out.Length1 == L * vectors
    modifies out
    ensures forall y, x :: 0 <= y < |rows| && 0 <= x < xsize ==> out[y, x] == Output(f, Column(rows, x), y)
  {
    hide Output, Column;
    var width := L * vectors;
    var fastPace := unroll * L;
    PositiveProduct(unroll, L);
    var x: nat := 0;
    ghost var k: nat := 0;
    while x + fastPace <= xsize
      invariant x == L * k <= width && Done(f, out, rows, x, |rows|, width)
      decreases xsize - x
    {
      VerticalStrip(f, rows, x, fastPace, width, out);
      MoreVectors(L, k, unroll);
      k := k + unroll;
      x := x + fastPace;
    }
    while x < xsize
      invariant x == L * k <= width && Done(f, out, rows, x, |rows|, width)
      decreases xsize - x
    {
      WholeVectors(L, k, vectors);
      VerticalStrip(f, rows, x, L, width, out);
      k := k + 1;
      x := x + L;
    }
  }

  lemma PositiveProduct(a: nat, b: nat)
    requires a >= 1 && b >= 1
    ensures a * b >= 1
  {
  }

  /** The horizontal pass: each row by itself. */
  method FastGaussianHorizontal(f: Filter, rows: seq<seq<real>>, xsize: nat, width: nat) returns (temp: seq<seq<real>>)
    requires f.radius >= 1 && xsize <= width && Wide(rows, width)
    ensures |temp| == |rows| && Wide(temp, width)
    ensures forall y, x :: 0 <= y < |rows| && 0 <= x < xsize ==> temp[y][x] == Output(f, rows[y][..xsize], x)
  {
    hide Output;
    temp := [];
    for y := 0 to |rows|
      invariant |temp| == y && Wide(temp, width)
      invariant forall v, x :: 0 <= v < y && 0 <= x < xsize ==> temp[v][x] == Output(f, rows[v][..xsize], x)
    {
      var out := new real[width](_ => 0.0);
      FastGaussian1D(f, rows[y][..xsize], out);
      temp := temp + [out[..]];
    }
  }

  /** A column of the image whose rows have been filtered by the recurrence. */
  ghost function FilteredColumn(f: Filter, rows: seq<seq<real>>, xsize: nat, x: nat): (c: seq<real>)
    requires x < xsize && forall y :: 0 <= y < |rows| ==> xsize <= |rows[y]|
    ensures |c| == |rows|
  {
    seq(|rows|, y requires 0 <= y < |rows| => Output(f, rows[y][..xsize], x))
  }

  /** The two fast passes are the scalar recurrence along every row and then along every column. */
  method FastGaussian(f: Filter, rows: seq<seq<real>>, xsize: nat, L: nat, unroll: nat, vectors: nat, out: array2<real>)
    requires f.radius >= 1 && L >= 1 && unroll >= 1 && xsize <= L * vectors
    requires Wide(rows, L * vectors) && out.Length0 == |rows| && out.Length1 == L * vectors
    modifies out
    ensures forall y, x :: 0 <= y < |rows| && 0 <= x < xsize ==> out[y, x] == Output(f, FilteredColumn(f, rows, xsize, x), y)
  {
    hide Output;
    var temp := FastGaussianHorizontal(f, rows, xsize, L * vectors);
    FastGaussianVertical(f, temp, xsize, L, unroll, vectors, out);
    forall y, x | 0 <= y < |rows| && 0 <= x < xsize
      ensures out[y, x] == Output(f, FilteredColumn(f, rows, xsize, x), y)
    {
      assert Column(temp, x) == FilteredColumn(f, rows, xsize, x);
    }
  }
}
