/** The pruning behind the inverse colormap (lib/jpegli/color_quantize.cc): samples are grouped into cells,
    and each cell keeps only the palette entries that can be nearest to one of its pixels. */
module InverseColors {
  import opened Arithmetic
  import opened OnePassColors

  /** kCompW, and the cell counts and widths that follow from kNumColorCellBits = {3, 4, 3, 3}. */
  function Weight(c: nat): nat { if c == 0 then 2 else if c == 1 then 3 else 1 }
  function NumCells(c: nat): nat { if c == 1 then 16 else 8 }
  function CellWidth(c: nat): nat { if c == 1 then 16 else 32 }

  type Color = seq<Byte>

  /** Palettes and pixels of n components. */
  predicate IsPalette(palette: seq<Color>, n: nat) {
    1 <= n <= 4 && 1 <= |palette| <= 256 && forall i :: 0 <= i < |palette| ==> |palette[i]| == n
  }

  predicate IsCell(cell: seq<nat>, n: nat) {
    |cell| == n && forall c :: 0 <= c < n ==> cell[c] < NumCells(c)
  }

  /** The cell of a pixel. */
  function CellOf(pixel: Color): (cell: seq<nat>)
    ensures |cell| == |pixel|
  {
    seq(|pixel|, c requires 0 <= c < |pixel| => pixel[c] / CellWidth(c))
  }

  /** The weighted squared distance over the first n components. */
  function Dist(p: Color, q: Color, n: nat): nat
    requires n <= |p| && n <= |q|
  {
    if n == 0 then 0 else Dist(p, q, n - 1) + Square((p[n - 1] - q[n - 1]) * Weight(n - 1))
  }

  /** The same distance with its weights written out: 4, 9, 1 and 1. */
  function WeightedDistance(p: Color, q: Color): int
    requires 1 <= |p| == |q| <= 4
  {
    Weighted(4, p[0], q[0]) + (if |p| >= 2 then Weighted(9, p[1], q[1]) else 0)
    + (if |p| >= 3 then Weighted(1, p[2], q[2]) else 0) + (if |p| == 4 then Weighted(1, p[3], q[3]) else 0)
  }

  function Weighted(w: int, a: Byte, b: Byte): int {
    w * ((a as int - b as int) * (a as int - b as int))
  }

  lemma DistStep(p: Color, q: Color, c: nat)
    requires c < |p| == |q| <= 4
    ensures Dist(p, q, 0) == 0
    ensures Dist(p, q, c + 1) == Dist(p, q, c) + Weighted(if c == 0 then 4 else if c == 1 then 9 else 1, p[c], q[c])
  {
    hide Square, Weighted;
    ComponentIs(p[c], q[c], Weight(c));
  }

  lemma ComponentIs(a: Byte, b: Byte, w: nat)
    ensures Square((a - b) * w) == Weighted(w * w, a, b)
  {
  }

  lemma DistIsWeighted(p: Color, q: Color)
    requires 1 <= |p| == |q| <= 4
    ensures Dist(p, q, |p|) == WeightedDistance(p, q)
  {
    hide Dist, Weighted;
    DistStep(p, q, 0);
    if |p| >= 2 {
      DistStep(p, q, 1);
    }
    if |p| >= 3 {
      DistStep(p, q, 2);
    }
    if |p| == 4 {
      DistStep(p, q, 3);
    }
  }

  /** How near and how far sample p is from the cell of component c, as the source computes it. */
  function Near(p: Byte, cell: nat, c: nat): nat {
    var lo := cell * CellWidth(c);
    var hi := lo + CellWidth(c) - 1;
    if p < lo then lo - p else if p > hi then p - hi else 0
  }

  function Far(p: Byte, cell: nat, c: nat): nat {
    var lo := cell * CellWidth(c);
    var hi := lo + CellWidth(c) - 1;
    if p < lo then hi - p
    else if p > hi then p - lo
    else if p > (lo + hi) / 2 then p - lo
    else hi - p
  }

  /** dmin and dmax of a palette entry and a cell. */
  function MinDist(p: Color, cell: seq<nat>, n: nat): nat
    requires n <= |p| && n <= |cell|
  {
    if n == 0 then 0 else MinDist(p, cell, n - 1) + Square(Near(p[n - 1], cell[n - 1], n - 1) * Weight(n - 1))
  }

  function MaxDist(p: Color, cell: seq<nat>, n: nat): nat
    requires n <= |p| && n <= |cell|
  {
    if n == 0 then 0 else MaxDist(p, cell, n - 1) + Square(Far(p[n - 1], cell[n - 1], n - 1) * Weight(n - 1))
  }

  lemma Apart(p: Byte, x: Byte, c: nat)
    requires c < 4
    ensures var cell := x / CellWidth(c); Near(p, cell, c) <= Distance(p, x) <= Far(p, cell, c)
  {
    InCell(x, x / CellWidth(c), c);
  }

  /** Both are attained by a sample of the cell. */
  lemma BoundsAttained(p: Byte, cell: nat, c: nat)
    requires c < 4 && cell < NumCells(c)
    ensures exists x: Byte :: x / CellWidth(c) == cell && Distance(p, x) == Near(p, cell, c)
    ensures exists x: Byte :: x / CellWidth(c) == cell && Distance(p, x) == Far(p, cell, c)
  {
    var lo: Byte := cell * CellWidth(c);
    var hi: Byte := lo + CellWidth(c) - 1;
    InCell(lo, cell, c);
    InCell(hi, cell, c);
    InCell(p, cell, c);
    var near: Byte, far: Byte := if p < lo then lo else if p > hi then hi else p, if p > (lo + hi) / 2 then lo else hi;
    assert near / CellWidth(c) == cell && Distance(p, near) == Near(p, cell, c);
    assert far / CellWidth(c) == cell && Distance(p, far) == Far(p, cell, c);
  }

  lemma InCell(x: Byte, cell: nat, c: nat)
    requires c < 4
    ensures x / CellWidth(c) == cell <==> cell * CellWidth(c) <= x < cell * CellWidth(c) + CellWidth(c)
  {
  }

  lemma WeightedSquares(near: nat, d: int, far: nat, w: nat)
    requires near <= Distance(d, 0) <= far
    ensures Square(near * w) <= Square(d * w) <= Square(far * w)
  {
    hide Square;
    var e: nat := Distance(d, 0);
    Scaled(w, near, e);
    Scaled(w, e, far);
    SquareOfNegative(e * w);
    SquareMono(near * w, e * w);
    SquareMono(e * w, far * w);
  }

  /** One component: the distance to any sample of the cell lies between the bounds, which differ. */
  lemma ComponentBounds(p: Byte, x: Byte, c: nat)
    requires c < 4
    ensures var cell := x / CellWidth(c);
            Square(Near(p, cell, c) * Weight(c)) <= Square((p - x) * Weight(c)) <= Square(Far(p, cell, c) * Weight(c))
  {
    hide Near, Far, Square, Weight;
    var cell := x / CellWidth(c);
    Apart(p, x, c);
    WeightedSquares(Near(p, cell, c), p - x, Far(p, cell, c), Weight(c));
  }

  lemma BoundsDiffer(p: Byte, cell: nat, c: nat)
    requires c < 4 && cell < NumCells(c)
    ensures Square(Near(p, cell, c) * Weight(c)) < Square(Far(p, cell, c) * Weight(c)) <= Square(765)
  {
    SquareMono(Near(p, cell, c) * Weight(c), Far(p, cell, c) * Weight(c));
    SquareMono(Far(p, cell, c) * Weight(c), 765);
  }

  /** Every pixel of the cell is at least dmin and at most dmax away from the palette entry. */
  lemma {:induction false} CellBounds(p: Color, pixel: Color, n: nat)
    requires n <= |p| && n <= |pixel| <= 4
    ensures MinDist(p, CellOf(pixel), n) <= Dist(p, pixel, n) <= MaxDist(p, CellOf(pixel), n)
  {
    hide Near, Far, Square;
    if n > 0 {
      CellBounds(p, pixel, n - 1);
      ComponentBounds(p[n - 1], pixel[n - 1], n - 1);
    }
  }

  lemma {:induction false} MinBelowMax(p: Color, cell: seq<nat>, n: nat)
    requires n <= |p| && n <= |cell| <= 4 && IsCell(cell, |cell|)
    ensures n > 0 ==> MinDist(p, cell, n) < MaxDist(p, cell, n)
    ensures n == 0 ==> MinDist(p, cell, n) == MaxDist(p, cell, n)
    ensures MaxDist(p, cell, n) <= n * 585225
  {
    hide Near, Far;
    if n > 0 {
      MinBelowMax(p, cell, n - 1);
      BoundsDiffer(p[n - 1], cell[n - 1], n - 1);
    }
  }

  /** min_maxdist after the first k entries. */
  function Limit(palette: seq<Color>, cell: seq<nat>, k: nat): int
    requires IsPalette(palette, |cell|) && k <= |palette|
  {
    if k == 0 then INT_MAX else
    var dmax := MaxDist(palette[k - 1], cell, |cell|);
    if dmax < Limit(palette, cell, k - 1) then dmax else Limit(palette, cell, k - 1)
  }

  /** The entries kept for a cell among the first k: those nearer than the limit. */
  function Kept(palette: seq<Color>, cell: seq<nat>, k: nat): seq<nat>
    requires IsPalette(palette, |cell|) && k <= |palette|
  {
    if k == 0 then []
    else if MinDist(palette[k - 1], cell, |cell|) < Limit(palette, cell, |palette|) then Kept(palette, cell, k - 1) + [k - 1]
    else Kept(palette, cell, k - 1)
  }

  function Candidates(palette: seq<Color>, cell: seq<nat>): seq<nat>
    requires IsPalette(palette, |cell|)
  {
    Kept(palette, cell, |palette|)
  }

  /** The candidates are listed in the order of the palette. */
  lemma {:induction false} KeptIncreases(palette: seq<Color>, cell: seq<nat>, k: nat, a: nat, b: nat)
    requires IsPalette(palette, |cell|) && k <= |palette| && a < b < |Kept(palette, cell, k)|
    ensures Kept(palette, cell, k)[a] < Kept(palette, cell, k)[b] < k
  {
    hide MinDist, Limit;
    if k > 0 {
      if b < |Kept(palette, cell, k - 1)| {
        KeptIncreases(palette, cell, k - 1, a, b);
      } else {
        KeptBelow(palette, cell, k - 1, a);
      }
    }
  }

  lemma {:induction false} KeptBelow(palette: seq<Color>, cell: seq<nat>, k: nat, a: nat)
    requires IsPalette(palette, |cell|) && k <= |palette| && a < |Kept(palette, cell, k)|
    ensures Kept(palette, cell, k)[a] < k
  {
    hide MinDist, Limit;
    if k > 0 && a < |Kept(palette, cell, k - 1)| {
      KeptBelow(palette, cell, k - 1, a);
    }
  }

  /** The kept entries are those whose dmin is below every dmax. */
  lemma {:induction false} KeptIff(palette: seq<Color>, cell: seq<nat>, k: nat, i: nat)
    requires IsPalette(palette, |cell|) && k <= |palette|
    ensures i in Kept(palette, cell, k) <==> i < k && MinDist(palette[i], cell, |cell|) < Limit(palette, cell, |palette|)
  {
    if k > 0 {
      KeptIff(palette, cell, k - 1, i);
    }
  }

  /** Some entry attains the limit. */
  lemma {:induction false} LimitAttained(palette: seq<Color>, cell: seq<nat>, k: nat) returns (j: nat)
    requires IsPalette(palette, |cell|) && IsCell(cell, |cell|) && 0 < k <= |palette|
    ensures j < k && MaxDist(palette[j], cell, |cell|) == Limit(palette, cell, k)
  {
    hide MaxDist, MinDist;
    j := k - 1;
    if k > 1 {
      var i := LimitAttained(palette, cell, k - 1);
      if Limit(palette, cell, k) == Limit(palette, cell, k - 1) {
        j := i;
      }
    } else {
      MinBelowMax(palette[0], cell, |cell|);
    }
  }

  /** For every palette entry some candidate is at least as near to each pixel of the cell. A pruned entry
      can tie with a candidate, so the nearest distance is kept but not every nearest entry. */
  lemma PruningKeepsNearest(palette: seq<Color>, pixel: Color, i: nat) returns (j: nat)
    requires IsPalette(palette, |pixel|) && i < |palette|
    ensures j in Candidates(palette, CellOf(pixel)) && j < |palette|
    ensures Dist(palette[j], pixel, |pixel|) <= Dist(palette[i], pixel, |pixel|)
  {
    hide MaxDist, MinDist, Dist, Limit, Kept;
    var cell, n := CellOf(pixel), |pixel|;
    j := LimitAttained(palette, cell, |palette|);
    CellBounds(palette[i], pixel, n);
    CellBounds(palette[j], pixel, n);
    MinBelowMax(palette[j], cell, n);
    if MinDist(palette[i], cell, n) < Limit(palette, cell, |palette|) {
      j := i;
    }
    KeptIff(palette, cell, |palette|, j);
  }

  /** Pruning can drop a nearest entry: sample 31 is equally near to 0 and to 62, but only 0 is kept. */
  lemma TieCanBePruned()
    ensures var palette := [[0], [62]];
            Dist(palette[0], [31], 1) == Dist(palette[1], [31], 1) && Candidates(palette, CellOf([31])) == [0]
  {
  }
}
