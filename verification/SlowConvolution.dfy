/** The reference form of a separable convolution (lib/extras/convolve_slow.cc), with mirrored borders. */
module SlowConvolution {
  import opened Arithmetic
  import opened Mirroring

  /** Weights by distance from the centre. */
  datatype Weights = Weights(horz: seq<real>, vert: seq<real>)

  type Image = seq<seq<real>>

  predicate IsImage(img: Image) {
    |img| > 0 && |img[0]| > 0 && forall y :: 0 <= y < |img| ==> |img[y]| == |img[0]|
  }

  /** The products of the first k samples of a window row, from the left. */
  function Taps(row: seq<real>, horz: seq<real>, x: int, wy: real, R: nat, k: nat): real
    requires |row| > 0 && |horz| == R + 1 && k <= 2 * R + 1
  {
    if k == 0 then 0.0 else
    var dx := k - 1 - R;
    Taps(row, horz, x, wy, R, k - 1) + row[Reflect(x + dx, |row|)] * horz[Abs(dx)] * wy
  }

  /** The sum over the first k rows of a window, from the top. */
  function Window(rows: seq<seq<real>>, w: Weights, x: int, R: nat, k: nat): real
    requires |rows| == 2 * R + 1 && |w.horz| == |w.vert| == R + 1 && k <= 2 * R + 1
    requires forall j :: 0 <= j < |rows| ==> |rows[j]| > 0
  {
    if k == 0 then 0.0 else
    Window(rows, w, x, R, k - 1) + Taps(rows[k - 1], w.horz, x, w.vert[Abs(k - 1 - R)], R, 2 * R + 1)
  }

  /** Row y, mirrored if it lies outside. */
  function MirroredRow(img: Image, y: int): (row: seq<real>)
    requires IsImage(img)
    ensures |row| == |img[0]|
  {
    img[Reflect(y, |img|)]
  }

  /** The rows around row y. */
  function RowsAround(img: Image, y: int, R: nat): (rows: seq<seq<real>>)
    requires IsImage(img)
    ensures |rows| == 2 * R + 1 && forall j :: 0 <= j < |rows| ==> rows[j] == MirroredRow(img, y + j - R)
  {
    seq(2 * R + 1, j requires 0 <= j < 2 * R + 1 => MirroredRow(img, y + j - R))
  }

  /** The convolution at one pixel. */
  function Convolved(img: Image, w: Weights, x: int, y: int, R: nat): real
    requires IsImage(img) && |w.horz| == |w.vert| == R + 1
  {
    Window(RowsAround(img, y, R), w, x, R, 2 * R + 1)
  }

  /** The rectangle of the input: columns from x0, rows from y0. */
  datatype Rect = Rect(x0: nat, y0: nat, xsize: nat, ysize: nat)

  predicate Inside(r: Rect, img: Image)
    requires IsImage(img)
  {
    r.x0 + r.xsize <= |img[0]| && r.y0 + r.ysize <= |img|
  }

  /** The inner loop: one row of the window is added. */
  method AddTaps(row: seq<real>, horz: seq<real>, x: int, wy: real, R: nat, mul0: real) returns (mul: real)
    requires |row| > 0 && |horz| == R + 1
    ensures mul == mul0 + Taps(row, horz, x, wy, R, 2 * R + 1)
  {
    hide Reflect;
    mul := mul0;
    for k := 0 to 2 * R + 1
      invariant mul == mul0 + Taps(row, horz, x, wy, R, k)
    {
      var dx := k - R;
      var wx := horz[Abs(dx)];
      var sx := Mirror(x + dx, |row|);
      mul := mul + row[sx] * wx * wy;
    }
  }

  method SlowSeparablePixel(img: Image, rect: Rect, x: int, y: int, w: Weights, R: nat) returns (mul: real)
    requires IsImage(img) && |w.horz| == |w.vert| == R + 1
    ensures mul == Convolved(img, w, rect.x0 + x, rect.y0 + y, R)
  {
    hide Reflect, Taps;
    ghost var rows := RowsAround(img, rect.y0 + y, R);
    mul := 0.0;
    for j := 0 to 2 * R + 1
      invariant mul == Window(rows, w, rect.x0 + x, R, j)
    {
      var dy := j - R;
      var sy := Mirror(rect.y0 + y + dy, |img|);
      assert img[sy] == MirroredRow(img, rect.y0 + y + j - R) == rows[j];
      mul := AddTaps(img[sy], w.horz, rect.x0 + x, w.vert[Abs(dy)], R, mul);
    }
  }

  /** All pixels of the rectangle. */
  method SlowSeparable(img: Image, rect: Rect, w: Weights, R: nat) returns (out: seq<seq<real>>)
    requires IsImage(img) && Inside(rect, img) && |w.horz| == |w.vert| == R + 1
    ensures |out| == rect.ysize && forall y :: 0 <= y < |out| ==> |out[y]| == rect.xsize
    ensures forall y, x :: 0 <= y < rect.ysize && 0 <= x < rect.xsize ==> out[y][x] == Convolved(img, w, rect.x0 + x, rect.y0 + y, R)
  {
    hide Convolved;
    out := [];
    for y := 0 to rect.ysize
      invariant |out| == y && forall v :: 0 <= v < y ==> |out[v]| == rect.xsize
      invariant forall v, x :: 0 <= v < y && 0 <= x < rect.xsize ==> out[v][x] == Convolved(img, w, rect.x0 + x, rect.y0 + v, R)
    {
      var line := [];
      for x := 0 to rect.xsize
        invariant |line| == x && forall k :: 0 <= k < x ==> line[k] == Convolved(img, w, rect.x0 + k, rect.y0 + y, R)
      {
        var v := SlowSeparablePixel(img, rect, x, y, w, R);
        line := line + [v];
      }
      out := out + [line];
    }
  }
}
