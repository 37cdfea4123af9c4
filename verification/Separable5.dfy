/** The vectorised 5x5 convolution (lib/extras/convolve_separable5.cc) equals the reference form. */
module Separable5 {
  import opened Arithmetic
  import opened Mirroring
  import opened SlowConvolution

  const RADIUS := 2

  /** A vector: N lanes. */
  type V = seq<real>

  function LoadU(row: seq<real>, x: int, N: nat): (v: V)
    requires 0 <= x && x + N <= |row|
    ensures |v| == N && forall i :: 0 <= i < N ==> v[i] == row[x + i]
  {
    row[x..x + N]
  }

  /** One horizontal convolution: the centre, and the sums at distance one and two. */
  function Combine(horz: seq<real>, c: real, l1: real, r1: real, l2: real, r2: real): real
    requires |horz| == 3
  {
    (l2 + r2) * horz[2] + ((l1 + r1) * horz[1] + c * horz[0])
  }

  function CombineLanes(horz: seq<real>, c: V, l1: V, r1: V, l2: V, r2: V): (v: V)
    requires |horz| == 3 && |c| == |l1| == |r1| == |l2| == |r2|
    ensures |v| == |c| && forall i :: 0 <= i < |v| ==> v[i] == Combine(horz, c[i], l1[i], r1[i], l2[i], r2[i])
  {
    seq(|c|, i requires 0 <= i < |c| => Combine(horz, c[i], l1[i], r1[i], l2[i], r2[i]))
  }

  /** The horizontal convolution at one column, with mirrored neighbours. */
  function Horizontal(row: seq<real>, horz: seq<real>, x: int): real
    requires |horz| == 3 && |row| > 0 && 0 <= x < |row|
  {
    var n := |row|;
    Combine(horz, row[x], row[Reflect(x - 1, n)], row[Reflect(x + 1, n)], row[Reflect(x - 2, n)], row[Reflect(x + 2, n)])
  }

  ghost predicate HorizontalLanes(v: V, row: seq<real>, horz: seq<real>, x: nat, N: nat)
    requires |horz| == 3 && x + N <= |row|
  {
    |v| == N && forall i :: 0 <= i < N ==> v[i] == Horizontal(row, horz, x + i)
  }

  // ---------------------------------------------------------------- the left edge

  /** The lane tables of the first vector. */
  function FirstL1(c: V): (v: V)
    requires |c| >= 4
    ensures |v| == |c|
  {
    seq(|c|, i requires 0 <= i < |c| => if i == 0 then c[0] else c[i - 1])
  }

  function FirstL2(c: V): (v: V)
    requires |c| >= 4
    ensures |v| == |c|
  {
    seq(|c|, i requires 0 <= i < |c| => if i == 0 then c[1] else if i == 1 then c[0] else c[i - 2])
  }

  method HorzConvolveFirst(row: seq<real>, horz: seq<real>, N: nat) returns (v: V)
    requires |horz| == 3 && N >= 4 && N + 2 <= |row|
    ensures HorizontalLanes(v, row, horz, 0, N)
  {
    hide Combine, Reflect;
    var c := LoadU(row, 0, N);
    v := CombineLanes(horz, c, FirstL1(c), LoadU(row, 1, N), FirstL2(c), LoadU(row, 2, N));
    forall i | 0 <= i < N
      ensures v[i] == Horizontal(row, horz, i)
    {
      ReflectNear(i - 1, |row|);
      ReflectNear(i - 2, |row|);
      ReflectNear(i + 1, |row|);
      ReflectNear(i + 2, |row|);
    }
  }

  // ---------------------------------------------------------------- the interior

  lemma InsideRow(row: seq<real>, horz: seq<real>, x: nat)
    requires |horz| == 3 && 2 <= x && x + 2 < |row|
    ensures Horizontal(row, horz, x) == Combine(horz, row[x], row[x - 1], row[x + 1], row[x - 2], row[x + 2])
  {
    hide Reflect, Combine;
    ReflectNear(x - 1, |row|);
    ReflectNear(x - 2, |row|);
    ReflectNear(x + 1, |row|);
    ReflectNear(x + 2, |row|);
  }

  method HorzConvolve(row: seq<real>, x: nat, horz: seq<real>, N: nat) returns (v: V)
    requires |horz| == 3 && 2 <= x && x + N + 2 <= |row|
    ensures HorizontalLanes(v, row, horz, x, N)
  {
    hide Combine, Horizontal;
    var c := LoadU(row, x, N);
    var l1, r1, l2, r2 := LoadU(row, x - 1, N), LoadU(row, x + 1, N), LoadU(row, x - 2, N), LoadU(row, x + 2, N);
    hide LoadU, CombineLanes;
    v := CombineLanes(horz, c, l1, r1, l2, r2);
    forall i | 0 <= i < N
      ensures v[i] == Horizontal(row, horz, x + i)
    {
      InsideRow(row, horz, x + i);
    }
  }

  // ---------------------------------------------------------------- the right edge

  /** The lane indices of a vector mirrored beyond its last lane. */
  function MirrorLane(i: nat, M: nat, N: nat): (lane: nat)
    requires 1 <= M <= 2 && N >= 4 && i < N
    ensures lane == if i + M < N then i + M else 2 * N - 1 - i - M
  {
    Min(i + M, N - 1) - Max(i + M - N, 0)
  }

  function MirrorLanes(M: nat, N: nat): (lanes: seq<nat>)
    requires 1 <= M <= 2 && N >= 4
    ensures |lanes| == N && forall i :: 0 <= i < N ==> lanes[i] == MirrorLane(i, M, N)
  {
    seq(N, i requires 0 <= i < N => MirrorLane(i, M, N))
  }

  function TableLookupLanes(v: V, lanes: seq<nat>): (r: V)
    requires |lanes| == |v| && forall i :: 0 <= i < |lanes| ==> lanes[i] < |v|
    ensures |r| == |v|
  {
    seq(|v|, i requires 0 <= i < |v| => v[lanes[i]])
  }

  /** The samples one and two to the right of the last whole vector, when none or one is left after it. */
  method RightNeighbours(sizeModN: nat, row: seq<real>, x: nat, N: nat) returns (r1: V, r2: V)
    requires N >= 4 && sizeModN < 2 && x + N + sizeModN == |row|
    ensures |r1| == |r2| == N
    ensures forall i :: 0 <= i < N ==> r1[i] == row[Reflect(x + i + 1, |row|)] && r2[i] == row[Reflect(x + i + 2, |row|)]
  {
    hide Reflect, Min, Max;
    var xsize := |row|;
    var ml1, ml2 := MirrorLanes(1, N), MirrorLanes(2, N);
    if sizeModN == 0 {
      var c := LoadU(row, x, N);
      r2 := TableLookupLanes(c, ml2);
      r1 := TableLookupLanes(c, ml1);
    } else {
      var last := LoadU(row, xsize - N, N);
      r2 := TableLookupLanes(last, ml1);
      r1 := last;
    }
    forall i | 0 <= i < N
      ensures r1[i] == row[Reflect(x + i + 1, xsize)] && r2[i] == row[Reflect(x + i + 2, xsize)]
    {
      ReflectNear(x + i + 1, xsize);
      ReflectNear(x + i + 2, xsize);
      assert ml1[i] == MirrorLane(i, 1, N) && ml2[i] == MirrorLane(i, 2, N);
    }
  }

  method HorzConvolveLast(sizeModN: nat, row: seq<real>, x: nat, horz: seq<real>, N: nat) returns (v: V)
    requires |horz| == 3 && N >= 4 && sizeModN < 2 && 2 <= x && x + N + sizeModN == |row|
    ensures HorizontalLanes(v, row, horz, x, N)
  {
    hide Combine, Reflect;
    var r1, r2 := RightNeighbours(sizeModN, row, x, N);
    v := CombineLanes(horz, LoadU(row, x, N), LoadU(row, x - 1, N), r1, LoadU(row, x - 2, N), r2);
    forall i | 0 <= i < N
      ensures v[i] == Horizontal(row, horz, x + i)
    {
      ReflectNear(x + i - 1, |row|);
      ReflectNear(x + i - 2, |row|);
    }
  }

  // ---------------------------------------------------------------- five rows

  /** The rows of a window, from the top. */
  ghost predicate FiveRows(rows: seq<seq<real>>, xsize: nat) {
    |rows| == 5 && xsize > 0 && forall j :: 0 <= j < 5 ==> |rows[j]| == xsize
  }

  ghost predicate IsWeights(w: Weights) {
    |w.horz| == 3 && |w.vert| == 3
  }

  /** The vertical combination of five horizontal results. */
  function Vertical(vert: seq<real>, t2: real, t1: real, m: real, b1: real, b2: real): real
    requires |vert| == 3
  {
    (t2 + b2) * vert[2] + ((t1 + b1) * vert[1] + m * vert[0])
  }

  /** What the vector code computes for one pixel. */
  function Pixel(rows: seq<seq<real>>, w: Weights, x: nat): real
    requires |rows| > 0 && FiveRows(rows, |rows[0]|) && IsWeights(w) && x < |rows[0]|
  {
    Vertical(w.vert, Horizontal(rows[0], w.horz, x), Horizontal(rows[1], w.horz, x), Horizontal(rows[2], w.horz, x),
             Horizontal(rows[3], w.horz, x), Horizontal(rows[4], w.horz, x))
  }

  lemma FiveTaps(a: real, b: real, c: real, d: real, e: real, h0: real, h1: real, h2: real, wy: real)
    ensures a * h2 * wy + b * h1 * wy + c * h0 * wy + d * h1 * wy + e * h2 * wy
         == ((a + e) * h2 + ((b + d) * h1 + c * h0)) * wy
  {
  }

  lemma TapsAreHorizontal(row: seq<real>, horz: seq<real>, x: nat, wy: real)
    requires |horz| == 3 && x < |row|
    ensures Taps(row, horz, x, wy, 2, 5) == Horizontal(row, horz, x) * wy
  {
    hide Reflect;
    var n := |row|;
    ReflectInside(x, n);
    var a, b, c, d, e := row[Reflect(x - 2, n)], row[Reflect(x - 1, n)], row[Reflect(x, n)], row[Reflect(x + 1, n)], row[Reflect(x + 2, n)];
    assert Taps(row, horz, x, wy, 2, 1) == a * horz[2] * wy;
    assert Taps(row, horz, x, wy, 2, 2) == Taps(row, horz, x, wy, 2, 1) + b * horz[1] * wy;
    assert Taps(row, horz, x, wy, 2, 3) == Taps(row, horz, x, wy, 2, 2) + c * horz[0] * wy;
    assert Taps(row, horz, x, wy, 2, 4) == Taps(row, horz, x, wy, 2, 3) + d * horz[1] * wy;
    assert Taps(row, horz, x, wy, 2, 5) == Taps(row, horz, x, wy, 2, 4) + e * horz[2] * wy;
    FiveTaps(a, b, c, d, e, horz[0], horz[1], horz[2], wy);
  }

  lemma FiveRowsSum(a: real, b: real, c: real, d: real, e: real, v0: real, v1: real, v2: real)
    ensures a * v2 + b * v1 + c * v0 + d * v1 + e * v2 == (a + e) * v2 + ((b + d) * v1 + c * v0)
  {
  }

  /** It is the sum over the window. */
  lemma PixelIsWindow(rows: seq<seq<real>>, w: Weights, x: nat)
    requires |rows| > 0 && FiveRows(rows, |rows[0]|) && IsWeights(w) && x < |rows[0]|
    ensures Pixel(rows, w, x) == Window(rows, w, x, 2, 5)
  {
    hide Horizontal, Taps;
    var h0, h1, h2, h3, h4 := Horizontal(rows[0], w.horz, x), Horizontal(rows[1], w.horz, x), Horizontal(rows[2], w.horz, x),
                              Horizontal(rows[3], w.horz, x), Horizontal(rows[4], w.horz, x);
    TapsAreHorizontal(rows[0], w.horz, x, w.vert[2]);
    TapsAreHorizontal(rows[1], w.horz, x, w.vert[1]);
    TapsAreHorizontal(rows[2], w.horz, x, w.vert[0]);
    TapsAreHorizontal(rows[3], w.horz, x, w.vert[1]);
    TapsAreHorizontal(rows[4], w.horz, x, w.vert[2]);
    assert Window(rows, w, x, 2, 1) == h0 * w.vert[2];
    assert Window(rows, w, x, 2, 2) == Window(rows, w, x, 2, 1) + h1 * w.vert[1];
    assert Window(rows, w, x, 2, 3) == Window(rows, w, x, 2, 2) + h2 * w.vert[0];
    assert Window(rows, w, x, 2, 4) == Window(rows, w, x, 2, 3) + h3 * w.vert[1];
    assert Window(rows, w, x, 2, 5) == Window(rows, w, x, 2, 4) + h4 * w.vert[2];
    FiveRowsSum(h0, h1, h2, h3, h4, w.vert[0], w.vert[1], w.vert[2]);
  }

  // ---------------------------------------------------------------- one output row

  /** Which of the three horizontal convolutions a vector needs. */
  datatype Place = First | Inner | Last(sizeModN: nat)

  ghost predicate Fits(place: Place, x: nat, xsize: nat, N: nat) {
    match place
    case First => x == 0 && N + 2 <= xsize
    case Inner => 2 <= x && x + N + 2 <= xsize
    case Last(sizeModN) => sizeModN < 2 <= x && x + N + sizeModN == xsize
  }

  method ConvolveOne(place: Place, row: seq<real>, x: nat, horz: seq<real>, N: nat) returns (v: V)
    requires |horz| == 3 && N >= 4 && Fits(place, x, |row|, N)
    ensures HorizontalLanes(v, row, horz, x, N)
  {
    match place
    case First => v := HorzConvolveFirst(row, horz, N);
    case Inner => v := HorzConvolve(row, x, horz, N);
    case Last(sizeModN) => v := HorzConvolveLast(sizeModN, row, x, horz, N);
  }

  /** One vector of the output row. */
  method ConvolveVector(place: Place, rows: seq<seq<real>>, x: nat, w: Weights, N: nat, out: array<real>)
    requires IsWeights(w) && FiveRows(rows, out.Length) && N >= 4 && Fits(place, x, out.Length, N)
    modifies out
    ensures forall k :: 0 <= k < out.Length && (k < x || x + N <= k) ==> out[k] == old(out[k])
    ensures forall k :: x <= k < x + N ==> out[k] == Pixel(rows, w, k)
  {
    hide Horizontal;
    var m := ConvolveOne(place, rows[2], x, w.horz, N);
    var t1 := ConvolveOne(place, rows[1], x, w.horz, N);
    var b1 := ConvolveOne(place, rows[3], x, w.horz, N);
    var t2 := ConvolveOne(place, rows[0], x, w.horz, N);
    var b2 := ConvolveOne(place, rows[4], x, w.horz, N);
    for i := 0 to N
      invariant forall k :: 0 <= k < out.Length && (k < x || x + N <= k) ==> out[k] == old(out[k])
      invariant forall k :: x <= k < x + i ==> out[k] == Pixel(rows, w, k)
    {
      out[x + i] := Vertical(w.vert, t2[i], t1[i], m[i], b1[i], b2[i]);
    }
  }

  /** One pixel of the tail, sample by sample. */
  method TailPixel(rows: seq<seq<real>>, x: nat, w: Weights) returns (mul: real)
    requires |rows| > 0 && IsWeights(w) && FiveRows(rows, |rows[0]|) && x < |rows[0]|
    ensures mul == Pixel(rows, w, x)
  {
    PixelIsWindow(rows, w, x);
    hide Pixel, Taps;
    mul := 0.0;
    for j := 0 to 5
      invariant mul == Window(rows, w, x, 2, j)
    {
      mul := AddTaps(rows[j], w.horz, x, w.vert[Abs(j - 2)], 2, mul);
    }
  }

  /** Where the main loop stops: whole vectors and the rest of a row of xsize = q * N + m samples. */
  lemma MainLoopStops(N: nat, k: nat, q: nat, m: nat)
    requires N >= 4 && m < N
    ensures k * N + N + 2 <= q * N + m && m < 2 ==> (k + 1) * N + N + m <= q * N + m
    ensures k * N + N + 2 <= q * N + m ==> (k + 1) * N <= q * N
    ensures k * N + N + 2 > q * N + m && k * N + N + m <= q * N + m ==> k * N + N == q * N
    ensures k * N + N + 2 > q * N + m && m >= 2 && k * N <= q * N ==> k * N == q * N
    ensures (k + 1) * N == k * N + N
  {
    var d := q - k;
    assert d * N == q * N - k * N;
    SmallMultiple(N, d);
  }

  lemma SmallMultiple(N: nat, d: int)
    requires N >= 4
    ensures if d >= 2 then d * N >= 2 * N else if d == 1 then d * N == N else d * N <= 0
    ensures d < 0 ==> d * N <= -(N as int)
    ensures d == 0 ==> d * N == 0
  {
  }

  /** One output row: first vector, whole vectors, a last vector that needs mirroring, single samples. */
  method ConvolveRow(rows: seq<seq<real>>, w: Weights, N: nat, sizeModN: nat, out: array<real>)
    requires IsWeights(w) && FiveRows(rows, out.Length) && N >= 4 && N + 2 <= out.Length
    requires sizeModN == Min(out.Length % N, 3)
    modifies out
    ensures forall k :: 0 <= k < out.Length ==> out[k] == Pixel(rows, w, k)
  {
    hide Pixel;
    var xsize := out.Length;
    ghost var q, m, k := xsize / N, xsize % N, 1;
    WholeVectors(N, xsize);
    ConvolveVector(First, rows, 0, w, N, out);
    var x := N;
    FirstVector(N, q, m);
    while x + N + 2 <= xsize
      invariant k >= 1 && x == k * N <= q * N && (m < 2 ==> x + N + m <= xsize)
      invariant forall v :: 0 <= v < x ==> out[v] == Pixel(rows, w, v)
    {
      MainLoopStops(N, k, q, m);
      ConvolveVector(Inner, rows, x, w, N, out);
      k := k + 1;
      x := x + N;
    }
    MainLoopStops(N, k, q, m);
    if sizeModN < 2 {
      ConvolveVector(Last(sizeModN), rows, x, w, N, out);
      x := x + N;
    }
    if sizeModN != 0 {
      while x < xsize
        invariant x <= xsize
        invariant forall v :: 0 <= v < x ==> out[v] == Pixel(rows, w, v)
      {
        out[x] := TailPixel(rows, x, w);
        x := x + 1;
      }
    }
  }

  lemma WholeVectors(N: nat, x: nat)
    requires N > 0
    ensures x == x / N * N + x % N
  {
    QuotientAndRest(N, x);
  }

  lemma FirstVector(N: nat, q: nat, m: nat)
    requires N >= 4 && m < N && N + 2 <= q * N + m
    ensures N <= q * N && (m < 2 ==> N + N + m <= q * N + m)
  {
    SmallMultiple(N, q);
  }

  // ---------------------------------------------------------------- the rows of a window

  /** Rows whose window leaves the image. */
  predicate BorderRow(ysize: nat, y: int) {
    y < RADIUS || y + RADIUS >= ysize
  }

  /** The five row numbers: pointer arithmetic inside, the table or single reflections at the borders. */
  method WindowRows(ysize: nat, imgY: nat, border: bool) returns (t2: int, t1: int, b1: int, b2: int)
    requires imgY < ysize && border == BorderRow(ysize, imgY)
    ensures t2 == Reflect(imgY - 2, ysize) && t1 == Reflect(imgY - 1, ysize)
    ensures b1 == Reflect(imgY + 1, ysize) && b2 == Reflect(imgY + 2, ysize)
  {
    hide Reflect, BORDER_LUT;
    t2, t1, b1, b2 := imgY - 2, imgY - 1, imgY + 1, imgY + 2;
    if border && ysize <= 2 * RADIUS {
      BorderLutReflects(ysize, imgY, -2);
      BorderLutReflects(ysize, imgY, -1);
      BorderLutReflects(ysize, imgY, 1);
      BorderLutReflects(ysize, imgY, 2);
      var o := ysize * 8 - 6 + imgY;
      t2, t1, b1, b2 := BORDER_LUT[o - 2], BORDER_LUT[o - 1], BORDER_LUT[o + 1], BORDER_LUT[o + 2];
      return;
    }
    if border {
      if imgY < RADIUS {
        if imgY == 0 {
          t1 := imgY;
          t2 := b1;
        } else {
          t2 := t1;
        }
      } else {
        if imgY + 1 == ysize {
          b1 := imgY;
          b2 := t1;
        } else {
          b2 := b1;
        }
      }
    }
    ReflectNear(imgY - 2, ysize);
    ReflectNear(imgY - 1, ysize);
    ReflectNear(imgY + 1, ysize);
    ReflectNear(imgY + 2, ysize);
  }

  /** The columns of an image that a rectangle covers. */
  function Columns(img: Image, rect: Rect): (crop: Image)
    requires IsImage(img) && Inside(rect, img) && rect.xsize > 0
    ensures IsImage(crop) && |crop| == |img| && |crop[0]| == rect.xsize
    ensures forall y :: 0 <= y < |img| ==> crop[y] == img[y][rect.x0..rect.x0 + rect.xsize]
  {
    seq(|img|, y requires 0 <= y < |img| => img[y][rect.x0..rect.x0 + rect.xsize])
  }

  /** What the fast code is called on: a rectangle of at least N + 2 columns. */
  ghost predicate WideRect(img: Image, rect: Rect, N: nat) {
    IsImage(img) && Inside(rect, img) && N >= 4 && N + RADIUS <= rect.xsize
  }

  /** Row y of the output, from the five rows around it; only the columns of the rectangle are read. */
  method ConvolveImageRow(img: Image, rect: Rect, y: nat, w: Weights, N: nat, sizeModN: nat, border: bool) returns (line: seq<real>)
    requires WideRect(img, rect, N) && IsWeights(w) && sizeModN == Min(rect.xsize % N, 3) && rect.y0 + y < |img|
    requires border == BorderRow(|img|, rect.y0 + y)
    ensures |line| == rect.xsize
    ensures forall x :: 0 <= x < |line| ==> line[x] == Convolved(Columns(img, rect), w, x, rect.y0 + y, 2)
  {
    hide Reflect, Pixel, Window;
    var t2, t1, b1, b2 := WindowRows(|img|, rect.y0 + y, border);
    var from, to := rect.x0, rect.x0 + rect.xsize;
    var rows := [img[t2][from..to], img[t1][from..to], img[rect.y0 + y][from..to], img[b1][from..to], img[b2][from..to]];
    AroundIs(Columns(img, rect), rect.y0 + y, rows);
    var out := new real[rect.xsize];
    ConvolveRow(rows, w, N, sizeModN, out);
    line := out[..];
    forall x | 0 <= x < |line|
      ensures line[x] == Convolved(Columns(img, rect), w, x, rect.y0 + y, 2)
    {
      PixelIsWindow(rows, w, x);
    }
  }

  lemma AroundIs(img: Image, y: nat, rows: seq<seq<real>>)
    requires IsImage(img) && y < |img| && |rows| == 5
    requires rows[0] == img[Reflect(y - 2, |img|)] && rows[1] == img[Reflect(y - 1, |img|)] && rows[2] == img[y]
    requires rows[3] == img[Reflect(y + 1, |img|)] && rows[4] == img[Reflect(y + 2, |img|)]
    ensures rows == RowsAround(img, y, 2)
  {
    hide Reflect;
    ReflectInside(y, |img|);
    var around := RowsAround(img, y, 2);
    assert around[0] == MirroredRow(img, y - 2) && around[1] == MirroredRow(img, y - 1) && around[2] == MirroredRow(img, y);
    assert around[3] == MirroredRow(img, y + 1) && around[4] == MirroredRow(img, y + 2);
  }

  /** A row of the output is right, and so are the rows done so far. */
  ghost predicate RowDone(line: seq<real>, img: Image, y: nat, w: Weights)
    requires IsImage(img) && IsWeights(w)
  {
    |line| == |img[0]| && forall x :: 0 <= x < |line| ==> line[x] == Convolved(img, w, x, y, 2)
  }

  ghost predicate RowsDone(out: seq<seq<real>>, img: Image, y0: nat, w: Weights)
    requires IsImage(img) && IsWeights(w)
  {
    forall y :: 0 <= y < |out| ==> RowDone(out[y], img, y0 + y, w)
  }

  method RunSomeRows(img: Image, rect: Rect, ybegin: nat, yend: nat, w: Weights, N: nat, sizeModN: nat, border: bool, done: seq<seq<real>>)
    returns (out: seq<seq<real>>)
    requires WideRect(img, rect, N) && IsWeights(w) && sizeModN == Min(rect.xsize % N, 3)
    requires ybegin == |done| <= yend && rect.y0 + yend <= |img| && RowsDone(done, Columns(img, rect), rect.y0, w)
    requires forall y :: rect.y0 + ybegin <= y < rect.y0 + yend ==> border == BorderRow(|img|, y)
    ensures |out| == yend && RowsDone(out, Columns(img, rect), rect.y0, w)
  {
    hide Convolved;
    out := done;
    for y := ybegin to yend
      invariant |out| == y && RowsDone(out, Columns(img, rect), rect.y0, w)
    {
      var line := ConvolveImageRow(img, rect, y, w, N, sizeModN, border);
      out := out + [line];
    }
  }

  /** The rows are divided by their distance from the image borders, not from those of the rectangle. */
  method RunRows(img: Image, rect: Rect, w: Weights, N: nat, sizeModN: nat) returns (out: seq<seq<real>>)
    requires WideRect(img, rect, N) && IsWeights(w) && sizeModN == Min(rect.xsize % N, 3)
    ensures |out| == rect.ysize && RowsDone(out, Columns(img, rect), rect.y0, w)
  {
    hide Convolved;
    var y0, ysize := rect.y0, rect.ysize;
    var ybegin, yend := y0, y0 + ysize;
    while ybegin < yend && ybegin < RADIUS
      invariant y0 <= ybegin <= yend && (ybegin > y0 ==> ybegin <= RADIUS)
    {
      ybegin := ybegin + 1;
    }
    while ybegin < yend && yend + RADIUS > |img|
      invariant ybegin <= yend <= y0 + ysize
      invariant yend < y0 + ysize ==> yend + RADIUS >= |img|
    {
      yend := yend - 1;
    }
    out := [];
    if ybegin > y0 {
      out := RunSomeRows(img, rect, 0, ybegin - y0, w, N, sizeModN, true, out);
    }
    if yend > ybegin {
      out := RunSomeRows(img, rect, ybegin - y0, yend - y0, w, N, sizeModN, false, out);
    }
    if yend < y0 + ysize {
      out := RunSomeRows(img, rect, yend - y0, ysize, w, N, sizeModN, true, out);
    }
  }

  /** The result at one pixel: with at least N + 2 columns, the reference convolution of the image that consists
      of these columns only, otherwise that of the whole image. */
  function FastResult(img: Image, rect: Rect, w: Weights, N: nat, x: nat, y: nat): real
    requires IsImage(img) && Inside(rect, img) && |w.horz| == |w.vert| == 3 && x < rect.xsize && y < rect.ysize
  {
    if rect.xsize >= N + RADIUS then Convolved(Columns(img, rect), w, x, rect.y0 + y, 2)
    else Convolved(img, w, rect.x0 + x, rect.y0 + y, 2)
  }

  /** The fast convolution of any rectangle, for any number of lanes from 4 on. */
  method Separable5(img: Image, rect: Rect, w: Weights, N: nat) returns (out: seq<seq<real>>)
    requires IsImage(img) && IsWeights(w) && N >= 4 && Inside(rect, img)
    ensures |out| == rect.ysize && forall y :: 0 <= y < rect.ysize ==> |out[y]| == rect.xsize
    ensures forall y, x :: 0 <= y < rect.ysize && 0 <= x < rect.xsize ==> out[y][x] == FastResult(img, rect, w, N, x, y)
  {
    hide Convolved;
    var minWidth := N + RADIUS;
    if rect.xsize >= minWidth {
      out := RunRows(img, rect, w, N, Min(rect.xsize % N, 3));
    } else {
      out := SlowSeparable(img, rect, w, RADIUS);
    }
  }

  // ---------------------------------------------------------------- where it equals the reference form

  /** On this image the fast and the reference convolution agree. */
  ghost predicate AgreesOn(img: Image, rect: Rect, w: Weights, N: nat)
    requires IsImage(img) && Inside(rect, img) && IsWeights(w)
  {
    forall x: nat, y: nat :: x < rect.xsize && y < rect.ysize ==>
      FastResult(img, rect, w, N, x, y) == Convolved(img, w, rect.x0 + x, rect.y0 + y, 2)
  }

  /** They agree on this rectangle in all images of one size, for all weights. */
  ghost predicate AlwaysAgree(width: nat, height: nat, rect: Rect, N: nat) {
    forall img: Image, w: Weights :: IsImage(img) && |img| == height && |img[0]| == width && Inside(rect, img) && IsWeights(w) ==>
      AgreesOn(img, rect, w, N)
  }

  lemma WholeColumns(img: Image, rect: Rect)
    requires IsImage(img) && Inside(rect, img) && rect.x0 == 0 && rect.xsize == |img[0]|
    ensures Columns(img, rect) == img
  {
    var crop := Columns(img, rect);
    forall y | 0 <= y < |img|
      ensures crop[y] == img[y]
    {
      assert crop[y] == img[y][0..|img[y]|];
    }
  }

  lemma AgreesIf(img: Image, rect: Rect, w: Weights, N: nat)
    requires IsImage(img) && Inside(rect, img) && IsWeights(w)
    requires rect.ysize == 0 || rect.xsize < N + RADIUS || (rect.x0 == 0 && rect.xsize == |img[0]|)
    ensures AgreesOn(img, rect, w, N)
  {
    hide Convolved;
    if rect.ysize > 0 && rect.xsize >= N + RADIUS {
      WholeColumns(img, rect);
    }
  }

  /** An image that is 1 in column c and 0 elsewhere. */
  function Stripe(width: nat, height: nat, c: nat): (img: Image)
    requires width > 0 && height > 0
    ensures IsImage(img) && |img| == height && |img[0]| == width
    ensures forall y, x :: 0 <= y < height && 0 <= x < width ==> img[y][x] == if x == c then 1.0 else 0.0
  {
    seq(height, y => seq(width, x => if x == c then 1.0 else 0.0))
  }

  /** The sum of the left and the right neighbour. */
  const NEIGHBOURS := Weights([0.0, 1.0, 0.0], [1.0, 0.0, 0.0])

  lemma NeighboursOnly(img: Image, x: nat, y: nat)
    requires IsImage(img) && x < |img[0]| && y < |img|
    ensures Convolved(img, NEIGHBOURS, x, y, 2) == img[y][Reflect(x - 1, |img[0]|)] + img[y][Reflect(x + 1, |img[0]|)]
  {
    var rows := RowsAround(img, y, 2);
    ReflectInside(y, |img|);
    hide Reflect, Window;
    assert rows[2] == MirroredRow(img, y) == img[y];
    PixelIsWindow(rows, NEIGHBOURS, x);
  }

  /** The column just outside the rectangle: the reference form adds it to the pixel beside it, the fast one does not. */
  lemma StripeDiffers(width: nat, height: nat, rect: Rect, N: nat)
    requires width > 0 && height > 0 && N >= 4 && rect.x0 + rect.xsize <= width && rect.y0 + rect.ysize <= height
    requires rect.ysize > 0 && rect.xsize >= N + RADIUS && (rect.x0 > 0 || rect.xsize < width)
    ensures !AgreesOn(Stripe(width, height, if rect.x0 > 0 then rect.x0 - 1 else rect.xsize), rect, NEIGHBOURS, N)
  {
    hide Reflect, Convolved;
    var c := if rect.x0 > 0 then rect.x0 - 1 else rect.xsize;
    var img := Stripe(width, height, c);
    var x: nat := if rect.x0 > 0 then 0 else rect.xsize - 1;
    NeighboursOnly(img, rect.x0 + x, rect.y0);
    NeighboursOnly(Columns(img, rect), x, rect.y0);
    ReflectNear(rect.x0 + x - 1, width);
    ReflectNear(rect.x0 + x + 1, width);
    ReflectNear(x - 1, rect.xsize);
    ReflectNear(x + 1, rect.xsize);
    assert FastResult(img, rect, NEIGHBOURS, N, x, 0) == 0.0;
  }

  /** The fast convolution is the reference convolution exactly on empty rectangles, on those with fewer than
      N + 2 columns, and on those as wide as the image. */
  lemma AgreesExactly(width: nat, height: nat, rect: Rect, N: nat)
    requires width > 0 && height > 0 && N >= 4 && rect.x0 + rect.xsize <= width && rect.y0 + rect.ysize <= height
    ensures AlwaysAgree(width, height, rect, N) <==>
            rect.ysize == 0 || rect.xsize < N + RADIUS || (rect.x0 == 0 && rect.xsize == width)
  {
    hide AgreesOn;
    if rect.ysize == 0 || rect.xsize < N + RADIUS || (rect.x0 == 0 && rect.xsize == width) {
      forall img: Image, w: Weights | IsImage(img) && |img| == height && |img[0]| == width && Inside(rect, img) && IsWeights(w)
        ensures AgreesOn(img, rect, w, N)
      {
        AgreesIf(img, rect, w, N);
      }
    } else {
      StripeDiffers(width, height, rect, N);
      var img := Stripe(width, height, if rect.x0 > 0 then rect.x0 - 1 else rect.xsize);
      assert IsImage(img) && |img| == height && |img[0]| == width && Inside(rect, img) && IsWeights(NEIGHBOURS);
    }
  }
}
