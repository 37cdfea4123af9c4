/** Colour maps and colour lookup of the decoder (lib/jpegli/color_quantize.cc): the one-pass colormap with
    its lookup table, and the inverse colormap for a given palette. */
module ColorQuantizer {
  import opened Arithmetic
  import opened MixedRadix
  import opened OnePassColors
  import opened LevelCounts
  import opened InverseColors

  /** The levels that the lookup table assigns to a pixel, one digit for each component. */
  function Levels(pixel: Color, counts: seq<nat>, n: nat): (levels: seq<nat>)
    requires n <= |pixel| && n <= |counts| && forall c :: 0 <= c < |counts| ==> 2 <= counts[c] <= 256
    ensures |levels| == n && forall c :: 0 <= c < n ==> levels[c] == LevelIndex(pixel[c], counts[c]) < counts[c]
  {
    if n == 0 then [] else
      LevelInRadix(pixel[n - 1], counts[n - 1]);
      var last: nat := LevelIndex(pixel[n - 1], counts[n - 1]);
      Levels(pixel, counts, n - 1) + [last]
  }

  /** The radices of the cell grid. */
  function CellRadix(n: nat): (r: seq<nat>)
    ensures |r| == n
  {
    seq(n, c requires 0 <= c < n => NumCells(c))
  }

  /** The place of the cell of a pixel in the grid: 32, 16, 32 and 32 samples are one step of the four components. */
  function GridPlace(pixel: Color): int
    requires 1 <= |pixel| <= 4
  {
    var (p0, p1) := (pixel[0] as int / 32, if |pixel| >= 2 then pixel[1] as int / 16 else 0);
    var (p2, p3) := (if |pixel| >= 3 then pixel[2] as int / 32 else 0, if |pixel| == 4 then pixel[3] as int / 32 else 0);
    match |pixel|
    case 1 => p0
    case 2 => 16 * p0 + p1
    case 3 => 128 * p0 + 8 * p1 + p2
    case _ => 1024 * p0 + 64 * p1 + 8 * p2 + p3
  }

  /** Of the candidates that are nearest, this one is the first in the palette. */
  ghost predicate FirstNearest(palette: seq<Color>, pixel: Color, index: nat)
    requires IsPalette(palette, |pixel|)
  {
    && index < |palette| && index in Candidates(palette, CellOf(pixel))
    && forall i :: 0 <= i < index && i in Candidates(palette, CellOf(pixel)) ==>
         WeightedDistance(palette[index], pixel) < WeightedDistance(palette[i], pixel)
  }

  lemma IsFirst(palette: seq<Color>, pixel: Color, candidates: seq<nat>, first: nat)
    requires IsPalette(palette, |pixel|) && candidates == Candidates(palette, CellOf(pixel)) && first < |candidates|
    requires forall j :: 0 <= j < |candidates| ==> candidates[j] < |palette|
    requires forall j :: 0 <= j < first ==>
      Dist(palette[candidates[first]], pixel, |pixel|) < Dist(palette[candidates[j]], pixel, |pixel|)
    ensures FirstNearest(palette, pixel, candidates[first])
  {
    hide Dist, WeightedDistance, Candidates, CellOf;
    var index := candidates[first];
    DistIsWeighted(palette[index], pixel);
    forall i | 0 <= i < index && i in candidates
      ensures WeightedDistance(palette[index], pixel) < WeightedDistance(palette[i], pixel)
    {
      var j :| 0 <= j < |candidates| && candidates[j] == i;
      CandidateBefore(palette, pixel, candidates, first, j);
      DistIsWeighted(palette[i], pixel);
    }
  }

  lemma CandidateBefore(palette: seq<Color>, pixel: Color, candidates: seq<nat>, first: nat, j: nat)
    requires IsPalette(palette, |pixel|) && candidates == Candidates(palette, CellOf(pixel)) && first < |candidates| && j < |candidates|
    requires candidates[j] < candidates[first]
    ensures j < first
  {
    if j > first {
      KeptIncreases(palette, CellOf(pixel), |palette|, first, j);
    }
  }

  /** One sample of a colormap listed in odometer order: entry i has the level given by digit c of i. */
  ghost predicate ListedAt(colormap: array2<Byte>, counts: seq<nat>, digits: seq<nat>, i: nat)
    requires colormap.Length0 == |counts| == |digits| && i < colormap.Length1
    requires forall c :: 0 <= c < |counts| ==> 2 <= counts[c]
    reads colormap
  {
    forall c :: 0 <= c < |counts| ==> colormap[c, i] == GetColorComponent(digits[c], counts[c])
  }

  /** The colormap holds, for each combination of levels, that combination at the place its digits denote. */
  ghost predicate FullProduct(colormap: array2<Byte>, counts: seq<nat>)
    reads colormap
  {
    && colormap.Length0 == |counts| && colormap.Length1 == ProductFrom(counts, 0)
    && (forall c :: 0 <= c < |counts| ==> 2 <= counts[c])
    && (forall digits | DigitsBelow(digits, counts) ::
          Value(digits, counts) < colormap.Length1 && ListedAt(colormap, counts, digits, Value(digits, counts)))
  }

  method ListColors(counts: seq<nat>, actual: nat) returns (colormap: array2<Byte>)
    requires |counts| >= 1 && (forall c :: 0 <= c < |counts| ==> 2 <= counts[c]) && actual == ProductFrom(counts, 0)
    ensures FullProduct(colormap, counts)
  {
    hide ProductFrom, ValueFrom, GetColorComponent;
    colormap := new Byte[|counts|, actual];
    var nextColor := new nat[|counts|](_ => 0);
    ghost var listed: seq<seq<nat>> := [];
    ZeroValue(nextColor[..], counts, 0);
    for i := 0 to actual
      invariant |listed| == i && Value(nextColor[..], counts) == i && fresh(nextColor) && fresh(colormap)
      invariant i < actual ==> DigitsBelow(nextColor[..], counts)
      invariant forall j :: 0 <= j < i ==> DigitsBelow(listed[j], counts) && Value(listed[j], counts) == j
      invariant forall j :: 0 <= j < i ==> ListedAt(colormap, counts, listed[j], j)
    {
      label Start:
      for c := 0 to |counts|
        invariant forall k :: 0 <= k < c ==> colormap[k, i] == GetColorComponent(nextColor[k], counts[k])
        invariant forall k, j :: 0 <= k < |counts| && 0 <= j < i ==> colormap[k, j] == old@Start(colormap[k, j])
        invariant nextColor[..] == old@Start(nextColor[..])
      {
        LevelInRange(nextColor[c], counts[c]);
        colormap[c, i] := GetColorComponent(nextColor[c], counts[c]);
      }
      listed := listed + [nextColor[..]];
      Advance(nextColor, counts);
      if i + 1 < actual {
        LeadingDigitInRange(nextColor[..], counts);
      }
    }
    forall digits | DigitsBelow(digits, counts)
      ensures Value(digits, counts) < actual && ListedAt(colormap, counts, digits, Value(digits, counts))
    {
      ValueBelowProduct(digits, counts, 0);
      DigitsUnique(digits, listed[Value(digits, counts)], counts);
    }
  }

  lemma {:induction false} ZeroValue(digits: seq<nat>, radix: seq<nat>, c: nat)
    requires |digits| == |radix| && c <= |radix| && forall k :: 0 <= k < |digits| ==> digits[k] == 0
    ensures ValueFrom(digits, radix, c) == 0
    decreases |radix| - c
  {
    if c < |radix| {
      ZeroValue(digits, radix, c + 1);
    }
  }

  /** Row c of the lookup table: each level times the stride of the component. */
  ghost predicate LutRow(lut: seq<Byte>, counts: seq<nat>, c: nat)
    requires c < |counts| && |lut| == |counts| * 256 && forall k :: 0 <= k < |counts| ==> 2 <= counts[k]
  {
    forall i: Byte :: lut[c * 256 + i] == LevelIndex(i, counts[c]) * ProductFrom(counts, c + 1)
  }

  ghost predicate LutOf(lut: seq<Byte>, counts: seq<nat>) {
    && |lut| == |counts| * 256
    && (forall c :: 0 <= c < |counts| ==> 2 <= counts[c])
    && (forall c :: 0 <= c < |counts| ==> LutRow(lut, counts, c))
  }

  lemma StrideStep(counts: seq<nat>, c: nat)
    requires c < |counts| && counts[c] > 0
    ensures ProductFrom(counts, c) / counts[c] == ProductFrom(counts, c + 1)
  {
    QuotientIs(ProductFrom(counts, c), counts[c], ProductFrom(counts, c + 1));
  }

  lemma StrideFits(counts: seq<nat>, c: nat)
    requires (forall k :: 0 <= k < |counts| ==> 2 <= counts[k]) && c < |counts| && ProductFrom(counts, 0) <= 256
    ensures 1 <= ProductFrom(counts, c + 1) && counts[c] * ProductFrom(counts, c + 1) <= 256
  {
    ProductPositive(counts, c);
    ProductPositive(counts, c + 1);
  }

  /** The entries fit the eight bits they are stored in. */
  lemma EntryFits(i: Byte, N: nat, stride: nat)
    requires 2 <= N <= 256 && 1 <= stride && N * stride <= 256
    ensures 0 <= LevelIndex(i, N) * stride < 256
  {
    LevelInRadix(i, N);
    hide LevelIndex;
    MulLess(LevelIndex(i, N), N, stride, 0);
    MulNat(LevelIndex(i, N), stride);
  }

  method FillLutRow(lut: array<Byte>, c: nat, N: nat, stride: nat)
    requires 2 <= N <= 256 && (c + 1) * 256 <= lut.Length && 1 <= stride && N * stride <= 256
    modifies lut
    ensures forall i :: 0 <= i < lut.Length && (i < c * 256 || (c + 1) * 256 <= i) ==> lut[i] == old(lut[i])
    ensures forall i: Byte :: lut[c * 256 + i] == LevelIndex(i, N) * stride
  {
    hide LevelIndex;
    for i := 0 to 256
      invariant forall j :: 0 <= j < lut.Length && (j < c * 256 || (c + 1) * 256 <= j) ==> lut[j] == old(lut[j])
      invariant forall j: Byte :: 0 <= j < i ==> lut[c * 256 + j] == LevelIndex(j, N) * stride
    {
      EntryFits(i, N, stride);
      var index := LevelIndex(i, N);
      lut[c * 256 + i] := index * stride;
    }
  }

  method FillLut(counts: seq<nat>, actual: nat) returns (lut: array<Byte>)
    requires (forall c :: 0 <= c < |counts| ==> 2 <= counts[c] <= 256) && actual == ProductFrom(counts, 0) <= 256
    ensures LutOf(lut[..], counts)
  {
    hide ProductFrom, LevelIndex, LutRow;
    lut := new Byte[|counts| * 256];
    var stride := actual;
    for c := 0 to |counts|
      invariant fresh(lut) && stride == ProductFrom(counts, c)
      invariant forall k :: 0 <= k < c ==> LutRow(lut[..], counts, k)
    {
      StrideStep(counts, c);
      StrideFits(counts, c);
      ghost var before := lut[..];
      stride := stride / counts[c];
      FillLutRow(lut, c, counts[c], stride);
      RowFilled(before, lut[..], counts, c);
    }
  }

  lemma RowFilled(before: seq<Byte>, lut: seq<Byte>, counts: seq<nat>, c: nat)
    requires c < |counts| && |before| == |lut| == |counts| * 256 && forall k :: 0 <= k < |counts| ==> 2 <= counts[k]
    requires forall i :: 0 <= i < |lut| && (i < c * 256 || (c + 1) * 256 <= i) ==> lut[i] == before[i]
    requires forall i: Byte :: lut[c * 256 + i] == LevelIndex(i, counts[c]) * ProductFrom(counts, c + 1)
    requires forall k :: 0 <= k < c ==> LutRow(before, counts, k)
    ensures forall k :: 0 <= k < c + 1 ==> LutRow(lut, counts, k)
  {
    hide LevelIndex, ProductFrom;
    forall k | 0 <= k < c
      ensures LutRow(lut, counts, k)
    {
      assert LutRow(before, counts, k);
    }
  }

  // ---------------------------------------------------------------- the inverse colormap

  /** The candidate list of every cell, at the place that the digits of the cell denote. */
  ghost predicate InverseOf(lists: seq<seq<nat>>, palette: seq<Color>, n: nat)
    requires IsPalette(palette, n)
  {
    && |lists| == ProductFrom(CellRadix(n), 0)
    && (forall cell | DigitsBelow(cell, CellRadix(n)) ::
          Value(cell, CellRadix(n)) < |lists| && lists[Value(cell, CellRadix(n))] == Candidates(palette, cell))
  }

  /** The two passes over the palette for one cell. */
  method FindCandidatesForCell(palette: seq<Color>, cell: seq<nat>) returns (candidates: seq<nat>)
    requires IsPalette(palette, |cell|) && IsCell(cell, |cell|)
    ensures candidates == Candidates(palette, cell)
  {
    hide MaxDist, MinDist;
    var ncomp := |cell|;
    var minMaxdist := INT_MAX;
    var mindist := new nat[256];
    for i := 0 to |palette|
      invariant minMaxdist == Limit(palette, cell, i)
      invariant forall j :: 0 <= j < i ==> mindist[j] == MinDist(palette[j], cell, ncomp)
    {
      var dmin, dmax := DistanceRange(palette[i], cell);
      mindist[i] := dmin;
      minMaxdist := Min(dmax, minMaxdist);
    }
    candidates := [];
    for i := 0 to |palette|
      invariant candidates == Kept(palette, cell, i)
    {
      if mindist[i] < minMaxdist {
        candidates := candidates + [i];
      }
    }
  }

  method DistanceRange(p: Color, cell: seq<nat>) returns (dmin: nat, dmax: nat)
    requires |p| == |cell| <= 4
    ensures dmin == MinDist(p, cell, |cell|) && dmax == MaxDist(p, cell, |cell|)
  {
    hide Square;
    dmin, dmax := 0, 0;
    for c := 0 to |cell|
      invariant dmin == MinDist(p, cell, c) && dmax == MaxDist(p, cell, c)
    {
      var cellMin := cell[c] * CellWidth(c);
      var cellMax := cellMin + CellWidth(c) - 1;
      var cellCenter := (cellMin + cellMax) / 2;
      var dminc, dmaxc := 0, 0;
      if p[c] < cellMin {
        dminc := cellMin - p[c];
        dmaxc := cellMax - p[c];
      } else if p[c] > cellMax {
        dminc := p[c] - cellMax;
        dmaxc := p[c] - cellMin;
      } else if p[c] > cellCenter {
        dmaxc := p[c] - cellMin;
      } else {
        dmaxc := cellMax - p[c];
      }
      dmin := dmin + Square(dminc * Weight(c));
      dmax := dmax + Square(dmaxc * Weight(c));
    }
  }

  method ListCandidates(palette: seq<Color>, ncomp: nat) returns (lists: array<seq<nat>>)
    requires IsPalette(palette, ncomp)
    ensures InverseOf(lists[..], palette, ncomp)
  {
    hide ValueFrom, Candidates;
    ghost var radix := CellRadix(ncomp);
    var numCells := 1;
    for c := 0 to ncomp
      invariant numCells >= 0 && numCells * ProductFrom(radix, c) == ProductFrom(radix, 0)
    {
      Regroup(numCells, NumCells(c), ProductFrom(radix, c + 1));
      numCells := numCells * NumCells(c);
    }
    lists := new seq<nat>[numCells];
    var nextCell := new nat[ncomp](_ => 0);
    ghost var listed: seq<seq<nat>> := [];
    ZeroValue(nextCell[..], radix, 0);
    for i := 0 to numCells
      invariant |listed| == i && Value(nextCell[..], radix) == i && fresh(nextCell) && fresh(lists)
      invariant i < numCells ==> DigitsBelow(nextCell[..], radix)
      invariant forall j :: 0 <= j < i ==> DigitsBelow(listed[j], radix) && Value(listed[j], radix) == j
      invariant forall j :: 0 <= j < i ==> lists[j] == Candidates(palette, listed[j])
    {
      lists[i] := FindCandidatesForCell(palette, nextCell[..]);
      listed := listed + [nextCell[..]];
      Advance(nextCell, CellRadix(ncomp));
      if i + 1 < numCells {
        LeadingDigitInRange(nextCell[..], radix);
      }
    }
    forall cell | DigitsBelow(cell, radix)
      ensures Value(cell, radix) < numCells && lists[..][Value(cell, radix)] == Candidates(palette, cell)
    {
      ValueBelowProduct(cell, radix, 0);
      DigitsUnique(cell, listed[Value(cell, radix)], radix);
    }
  }

  lemma Regroup(a: nat, b: nat, c: nat)
    ensures a * (b * c) == (a * b) * c
  {
  }

  // ---------------------------------------------------------------- the quantizer's state

  /** The number of colours is the product of the counts. */
  method IntProduct(counts: seq<nat>) returns (actual: nat)
    ensures actual == ProductFrom(counts, 0)
  {
    actual := 1;
    for c := |counts| downto 0
      invariant actual == ProductFrom(counts, c)
    {
      actual := counts[c] * actual;
    }
  }

  lemma FactorsBelowProduct(counts: seq<nat>)
    requires forall c :: 0 <= c < |counts| ==> 2 <= counts[c]
    ensures forall c :: 0 <= c < |counts| ==> counts[c] <= ProductFrom(counts, 0)
  {
    forall c | 0 <= c < |counts|
      ensures counts[c] <= ProductFrom(counts, 0)
    {
      ProductPositive(counts, c);
      ProductPositive(counts, c + 1);
      Scaled(counts[c], 1, ProductFrom(counts, c + 1));
    }
  }

  lemma CellInGrid(pixel: Color)
    requires |pixel| <= 4
    ensures DigitsBelow(CellOf(pixel), CellRadix(|pixel|))
  {
  }

  lemma DistFits(palette: seq<Color>, pixel: Color)
    requires IsPalette(palette, |pixel|)
    ensures forall i :: 0 <= i < |palette| ==> Dist(palette[i], pixel, |pixel|) < INT_MAX
  {
    hide Dist, MaxDist, MinDist;
    forall i | 0 <= i < |palette|
      ensures Dist(palette[i], pixel, |pixel|) < INT_MAX
    {
      CellBounds(palette[i], pixel, |pixel|);
      MinBelowMax(palette[i], CellOf(pixel), |pixel|);
    }
  }

  /** The candidate list of a cell is not empty, and lists palette entries. */
  lemma CandidatesExist(palette: seq<Color>, pixel: Color)
    requires IsPalette(palette, |pixel|)
    ensures var candidates := Candidates(palette, CellOf(pixel));
            candidates != [] && forall k :: 0 <= k < |candidates| ==> candidates[k] < |palette|
  {
    hide Kept;
    var j := PruningKeepsNearest(palette, pixel, 0);
    var candidates := Candidates(palette, CellOf(pixel));
    forall k | 0 <= k < |candidates|
      ensures candidates[k] < |palette|
    {
      KeptIff(palette, CellOf(pixel), |palette|, candidates[k]);
    }
  }

  /** The colormap by entries. */
  function Entries(colormap: array2<Byte>): (palette: seq<Color>)
    reads colormap
    ensures |palette| == colormap.Length1
    ensures forall i :: 0 <= i < |palette| ==> |palette[i]| == colormap.Length0
  {
    seq(colormap.Length1, i requires 0 <= i < colormap.Length1 reads colormap => Entry(colormap, i))
  }

  function Entry(colormap: array2<Byte>, i: nat): (p: Color)
    requires i < colormap.Length1
    reads colormap
    ensures |p| == colormap.Length0 && forall c :: 0 <= c < |p| ==> p[c] == colormap[c, i]
  {
    seq(colormap.Length0, c requires 0 <= c < colormap.Length0 reads colormap => colormap[c, i])
  }

  class Quantizer {
    const components: nat
    var quantMode: nat
    var actualNumberOfColors: nat
    var numColors: seq<nat>
    var colormap: array2<Byte>
    var colormapLut: array<Byte>
    var candidateLists: array<seq<nat>>

    constructor (components: nat)
      ensures this.components == components
    {
      this.components := components;
      quantMode, actualNumberOfColors, numColors := 1, 0, [];
      colormap := new Byte[0, 0];
      colormapLut := new Byte[0];
      candidateLists := new seq<nat>[0];
    }

    /** Ready for lookups after the one-pass colormap. */
    ghost predicate OnePassReady()
      reads this, colormap, colormapLut
    {
      && |numColors| == components && (forall c :: 0 <= c < components ==> 2 <= numColors[c] <= 256)
      && FullProduct(colormap, numColors) && LutOf(colormapLut[..], numColors)
      && actualNumberOfColors == ProductFrom(numColors, 0) <= 256
    }

    /** Ready for lookups through the inverse colormap. */
    ghost predicate InverseReady()
      reads this, colormap, candidateLists
    {
      && IsPalette(Entries(colormap), components) && actualNumberOfColors == |Entries(colormap)|
      && InverseOf(candidateLists[..], Entries(colormap), components)
    }

    method ChooseColorMap1Pass(desiredNumberOfColors: int) returns (ok: bool)
      requires 1 <= components <= 4
      modifies this
      ensures ok <==> Pow(2, components) <= Min(desiredNumberOfColors, 256)
      ensures !ok ==> unchanged(this)
      ensures ok ==> OnePassReady() && Grown(numColors, Min(desiredNumberOfColors, 256)) && InOrder(numColors)
      ensures quantMode == old(quantMode)
    {
      var desired := Min(desiredNumberOfColors, 256);
      var counts;
      ok, counts := ChooseNumColors(components, desired);
      if ok {
        numColors := counts;
        actualNumberOfColors := IntProduct(counts);
        FactorsBelowProduct(counts);
        colormap := ListColors(counts, actualNumberOfColors);
        colormapLut := FillLut(counts, actualNumberOfColors);
      }
    }

    method CreateInverseColorMap()
      requires IsPalette(Entries(colormap), components) && actualNumberOfColors == |Entries(colormap)|
      modifies this`candidateLists
      ensures InverseReady() && Entries(colormap) == old(Entries(colormap))
    {
      candidateLists := ListCandidates(Entries(colormap), components);
    }

    /** Mode 1: the sum of one table entry for each component. */
    method LookupByLevels(pixel: Color) returns (index: nat)
      requires |pixel| == components >= 1 && OnePassReady()
      ensures index < actualNumberOfColors == colormap.Length1
      ensures forall c :: 0 <= c < components ==>
        colormap[c, index] == ChosenSample(pixel[c], numColors[c])
    {
      ghost var levels := Levels(pixel, numColors, components);
      hide LevelIndex, ProductFrom, GetColorComponent;
      ValueBelowProduct(levels, numColors, 0);
      index := 0;
      for c := 0 to components
        invariant index + ValueFrom(levels, numColors, c) == Value(levels, numColors)
      {
        assert LutRow(colormapLut[..], numColors, c);
        index := index + colormapLut[c * 256 + pixel[c]];
      }
      assert ListedAt(colormap, numColors, levels, Value(levels, numColors));
    }

    /** The place of the cell of a pixel, counted from the last component on. */
    method CellIndex(pixel: Color) returns (cellIdx: nat)
      requires |pixel| == components <= 4
      ensures cellIdx == Value(CellOf(pixel), CellRadix(components))
      ensures components >= 1 ==> cellIdx == GridPlace(pixel)
    {
      hide ValueFrom, ProductFrom, CellOf;
      ghost var cell, radix := CellOf(pixel), CellRadix(components);
      NoCells(cell, radix);
      var stride := 1;
      cellIdx := 0;
      for c := components downto 0
        invariant cellIdx == ValueFrom(cell, radix, c) && stride == ProductFrom(radix, c)
      {
        CellStep(pixel, c);
        cellIdx := cellIdx + pixel[c] / CellWidth(c) * stride;
        stride := stride * NumCells(c);
      }
      if components >= 1 {
        PlaceOfCell(pixel);
      }
    }

    lemma PlaceOfCell(pixel: Color)
      requires 1 <= |pixel| <= 4
      ensures Value(CellOf(pixel), CellRadix(|pixel|)) == GridPlace(pixel)
    {
      hide ValueFrom, ProductFrom, CellOf, CellRadix;
      NoCells(CellOf(pixel), CellRadix(|pixel|));
      match |pixel|
      case 1 =>
        CellStepBy(pixel, 0, 32, 8, 1);
      case 2 =>
        CellStepBy(pixel, 1, 16, 16, 1);
        CellStepBy(pixel, 0, 32, 8, 16);
      case 3 =>
        CellStepBy(pixel, 2, 32, 8, 1);
        CellStepBy(pixel, 1, 16, 16, 8);
        CellStepBy(pixel, 0, 32, 8, 128);
      case _ =>
        CellStepBy(pixel, 3, 32, 8, 1);
        CellStepBy(pixel, 2, 32, 8, 8);
        CellStepBy(pixel, 1, 16, 16, 64);
        CellStepBy(pixel, 0, 32, 8, 1024);
    }

    lemma CellStepBy(pixel: Color, c: nat, width: nat, cells: nat, place: nat)
      requires c < |pixel| && CellWidth(c) == width && NumCells(c) == cells
      requires |CellRadix(|pixel|)| == |CellOf(pixel)| == |pixel| && ProductFrom(CellRadix(|pixel|), c + 1) == place
      ensures width > 0
      ensures ValueFrom(CellOf(pixel), CellRadix(|pixel|), c)
              == pixel[c] as int / width * place + ValueFrom(CellOf(pixel), CellRadix(|pixel|), c + 1)
      ensures ProductFrom(CellRadix(|pixel|), c) == place * cells
    {
      CellStep(pixel, c);
      hide ValueFrom, ProductFrom, CellOf, CellRadix;
    }

    lemma NoCells(cell: seq<nat>, radix: seq<nat>)
      requires |cell| == |radix|
      ensures ValueFrom(cell, radix, |radix|) == 0 && ProductFrom(radix, |radix|) == 1
      ensures Value(cell, radix) == ValueFrom(cell, radix, 0)
    {
    }

    lemma CellStep(pixel: Color, c: nat)
      requires c < |pixel|
      ensures var cell, radix := CellOf(pixel), CellRadix(|pixel|);
        && |radix| == |cell|
        && ValueFrom(cell, radix, c) == pixel[c] / CellWidth(c) * ProductFrom(radix, c + 1) + ValueFrom(cell, radix, c + 1)
        && ProductFrom(radix, c) == ProductFrom(radix, c + 1) * NumCells(c)
    {
      assert CellOf(pixel)[c] == pixel[c] / CellWidth(c) && CellRadix(|pixel|)[c] == NumCells(c);
    }

    /** Modes 2 and 3: the nearest candidate of the cell of the pixel. */
    method LookupByCell(pixel: Color) returns (index: nat)
      requires |pixel| == components >= 1 && InverseReady()
      ensures index < actualNumberOfColors == colormap.Length1 && 1 <= components <= 4
      ensures forall i :: 0 <= i < actualNumberOfColors ==>
        WeightedDistance(Entries(colormap)[index], pixel) <= WeightedDistance(Entries(colormap)[i], pixel)
      ensures IsPalette(Entries(colormap), components) && FirstNearest(Entries(colormap), pixel, index)
    {
      hide Dist, WeightedDistance, Candidates, ValueFrom, ProductFrom, CellRadix, CellOf;
      ghost var palette := Entries(colormap);
      assert |palette[0]| == components;
      var cellIdx := CellIndex(pixel);
      CellInGrid(pixel);
      CandidatesExist(palette, pixel);
      DistFits(palette, pixel);
      var candidates := candidateLists[cellIdx];
      assert candidates == candidateLists[..][cellIdx] == Candidates(palette, CellOf(pixel));
      var mindist := INT_MAX;
      index := 0;
      ghost var first := 0;
      for k := 0 to |candidates|
        invariant forall j :: 0 <= j < k ==> mindist <= Dist(palette[candidates[j]], pixel, components)
        invariant if k == 0 then mindist == INT_MAX else index < |palette| && mindist == Dist(palette[index], pixel, components)
        invariant first <= k && (k > 0 ==> first < k && candidates[first] == index)
        invariant forall j :: 0 <= j < first ==> mindist < Dist(palette[candidates[j]], pixel, components)
      {
        var dist := PixelDistance(candidates[k], pixel);
        if dist < mindist {
          mindist, index, first := dist, candidates[k], k;
        }
      }
      forall i | 0 <= i < |palette|
        ensures WeightedDistance(palette[index], pixel) <= WeightedDistance(palette[i], pixel)
      {
        var j := PruningKeepsNearest(palette, pixel, i);
        DistIsWeighted(palette[index], pixel);
        DistIsWeighted(palette[i], pixel);
      }
      IsFirst(palette, pixel, candidates, first);
    }

    method PixelDistance(i: nat, pixel: Color) returns (dist: nat)
      requires |pixel| == components == colormap.Length0 && i < colormap.Length1
      ensures dist == Dist(Entries(colormap)[i], pixel, components)
    {
      dist := 0;
      for c := 0 to components
        invariant dist == Dist(Entries(colormap)[i], pixel, c)
      {
        var d := (colormap[c, i] - pixel[c]) * Weight(c);
        dist := dist + Square(d);
      }
    }

    /** The colour index of a pixel, in one of the two ways. */
    method LookupColorIndex(pixel: Color) returns (index: nat)
      requires |pixel| == components >= 1
      requires if quantMode == 1 then OnePassReady() else InverseReady()
      ensures index < actualNumberOfColors == colormap.Length1
      ensures quantMode == 1 ==> forall c :: 0 <= c < components ==>
        colormap[c, index] == ChosenSample(pixel[c], numColors[c])
      ensures quantMode != 1 ==> 1 <= components <= 4 && forall i :: 0 <= i < actualNumberOfColors ==>
        WeightedDistance(Entries(colormap)[index], pixel) <= WeightedDistance(Entries(colormap)[i], pixel)
      ensures quantMode != 1 ==> IsPalette(Entries(colormap), components) && FirstNearest(Entries(colormap), pixel, index)
    {
      if quantMode == 1 {
        index := LookupByLevels(pixel);
      } else {
        index := LookupByCell(pixel);
      }
    }
  }
}
