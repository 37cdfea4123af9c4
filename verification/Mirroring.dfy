/** Mirrored coordinates (lib/extras/image_ops.h), and the row table that the fast 5x5 convolution uses for
    images of one to four rows (lib/extras/convolve_separable5.cc). */
module Mirroring {
  import opened Arithmetic

  /** Reflection with period 2n: the samples at the border are repeated. */
  function Reflect(x: int, n: nat): (r: nat)
    requires n > 0
    ensures r < n
  {
    var p := x % (2 * n);
    if p < n then p else 2 * n - 1 - p
  }

  lemma ReflectInside(x: int, n: nat)
    requires 0 <= x < n
    ensures Reflect(x, n) == x
  {
    Residue(x, 2 * n, 0, x);
  }

  /** Both steps of the loop are reflections that keep the result. */
  lemma ReflectLow(x: int, n: nat)
    requires n > 0
    ensures Reflect(-x - 1, n) == Reflect(x, n)
  {
    var m := 2 * n;
    assert x == m * (x / m) + x % m;
    assert m * (-(x / m) - 1) == -(m * (x / m)) - m;
    Residue(-x - 1, m, -(x / m) - 1, m - 1 - x % m);
  }

  lemma ReflectHigh(x: int, n: nat)
    requires n > 0
    ensures Reflect(2 * n - 1 - x, n) == Reflect(x, n)
  {
    var m := 2 * n;
    assert x == m * (x / m) + x % m;
    assert m * (-(x / m)) == -(m * (x / m));
    Residue(2 * n - 1 - x, m, -(x / m), m - 1 - x % m);
  }

  /** The loop ends for every coordinate, however far outside, and gives the closed form. */
  method Mirror(x0: int, xsize: nat) returns (x: int)
    requires xsize > 0
    ensures x == Reflect(x0, xsize)
  {
    hide Reflect;
    x := x0;
    while x < 0 || x >= xsize
      invariant Reflect(x, xsize) == Reflect(x0, xsize)
      decreases if x < 0 then -2 * x - 1 else 2 * x
    {
      if x < 0 {
        ReflectLow(x, xsize);
        x := -x - 1;
      } else {
        ReflectHigh(x, xsize);
        x := 2 * xsize - 1 - x;
      }
    }
    ReflectInside(x, xsize);
  }

  /** In larger images a row is mirrored at most once. */
  lemma ReflectNear(y: int, n: nat)
    requires n > 0 && 0 <= n + y && y < 2 * n
    ensures Reflect(y, n) == if y < 0 then -y - 1 else if y < n then y else 2 * n - 1 - y
  {
    if y < 0 {
      ReflectLow(y, n);
      ReflectInside(-y - 1, n);
    } else if y < n {
      ReflectInside(y, n);
    } else {
      ReflectHigh(y, n);
      ReflectInside(2 * n - 1 - y, n);
    }
  }

  /** kBorderLut, the part for each number of rows; 0xBAD entries are never read. */
  const ONE_ROW: seq<nat> := [0, 0, 0, 0, 0, 0xBAD, 0xBAD, 0xBAD]
  const TWO_ROWS: seq<nat> := [1, 0, 0, 1, 1, 0, 0xBAD, 0xBAD]
  const THREE_ROWS: seq<nat> := [1, 0, 0, 1, 2, 2, 1, 0xBAD]
  const FOUR_ROWS: seq<nat> := [1, 0, 0, 1, 2, 3, 3, 2]
  const BORDER_LUT: seq<nat> := ONE_ROW + TWO_ROWS + THREE_ROWS + FOUR_ROWS

  function RowsPart(ysize: nat): seq<nat>
    requires 1 <= ysize <= 4
  {
    if ysize == 1 then ONE_ROW else if ysize == 2 then TWO_ROWS else if ysize == 3 then THREE_ROWS else FOUR_ROWS
  }

  lemma PartOfTable(ysize: nat, k: nat)
    requires 1 <= ysize <= 4 && k < 8
    ensures |RowsPart(ysize)| == 8 && |BORDER_LUT| == 32 && BORDER_LUT[8 * (ysize - 1) + k] == RowsPart(ysize)[k]
  {
  }

  lemma TableEntries(ysize: nat, z: int)
    requires 1 <= ysize <= 4 && -2 <= z <= ysize + 1
    ensures |RowsPart(ysize)| == 8
    ensures RowsPart(ysize)[z + 2] == if ysize == 1 then 0 else if z < 0 then -z - 1 else if z < ysize then z else 2 * ysize - 1 - z
  {
  }

  /** For images of up to four rows the table is the reflection, doubly reflected rows included. */
  lemma BorderLutReflects(ysize: nat, y: nat, dy: int)
    requires 1 <= ysize <= 4 && y < ysize && -2 <= dy <= 2
    ensures 0 <= ysize * 8 - 6 + y + dy < |BORDER_LUT|
    ensures BORDER_LUT[ysize * 8 - 6 + y + dy] == Reflect(y + dy, ysize)
  {
    var z := y + dy;
    hide Reflect, BORDER_LUT, RowsPart;
    PartOfTable(ysize, z + 2);
    TableEntries(ysize, z);
    if ysize == 1 {
      OneRow(z);
    } else {
      ReflectNear(z, ysize);
    }
  }

  lemma OneRow(z: int)
    ensures Reflect(z, 1) == 0
  {
  }
}
