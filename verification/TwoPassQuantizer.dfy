/** The two-pass quantizer from the pixels to the palette (lib/jpegli/color_quantize.cc). */
module TwoPassQuantizer {
  import opened Arithmetic
  import opened RgbColors
  import opened ColorIndex
  import opened ColorGrid
  import opened Palette
  import opened PaletteGrowth

  /** The first of the most frequent colours. */
  ghost predicate FirstMostFrequent(count: seq<nat>, w: nat) {
    && w < |count|
    && (forall j :: 0 <= j < |count| ==> count[j] <= count[w])
    && (forall j :: 0 <= j < w ==> count[j] < count[w])
  }

  /** The colours the palette starts with: the frequent ones, or else the most frequent one. */
  ghost predicate IsSeed(seeds: seq<nat>, count: seq<nat>, threshold: nat) {
    if Frequent(count, threshold, |count|) == [] then |seeds| == 1 && FirstMostFrequent(count, seeds[0])
    else seeds == Frequent(count, threshold, |count|)
  }

  /** The winner among the colours below k. */
  ghost predicate MostSoFar(count: seq<nat>, k: nat, maxCount: nat, winner: nat)
    requires k <= |count|
  {
    && (if k == 0 then maxCount == winner == 0 else winner < k && maxCount == count[winner])
    && (forall j :: 0 <= j < k ==> count[j] <= maxCount)
    && (forall j :: 0 <= j < winner ==> count[j] < maxCount)
  }

  lemma NextWinner(count: seq<nat>, k: nat, maxCount: nat, winner: nat)
    requires k < |count| && MostSoFar(count, k, maxCount, winner) && count[k] > 0
    ensures if count[k] > maxCount then MostSoFar(count, k + 1, count[k], k) else MostSoFar(count, k + 1, maxCount, winner)
  {
  }

  lemma UnassignedIsClustered(colors: seq<Rgb>, dist: seq<nat>, cluster: seq<nat>)
    requires |dist| == |cluster| == |colors| && forall j :: 0 <= j < |dist| ==> dist[j] == INT_MAX
    ensures Clustered(colors, [], dist, cluster)
  {
  }

  method SeedPalette(colors: seq<Rgb>, count: seq<nat>, threshold: nat, dist: array<nat>, cluster: array<nat>,
                     center: array<nat>, inPalette: array<bool>) returns (k: nat)
    requires |count| == |colors| == dist.Length == cluster.Length == inPalette.Length && |colors| > 0
    requires dist != cluster && cluster != center && dist != center
    requires forall j :: 0 <= j < |colors| ==> dist[j] == INT_MAX && !inPalette[j] && count[j] > 0
    requires |Frequent(count, threshold, |count|)| <= center.Length && center.Length > 0
    modifies dist, cluster, center, inPalette
    ensures 0 < k <= center.Length && IsSeed(center[..k], count, threshold)
    ensures Clustered(colors, center[..k], dist[..], cluster[..])
    ensures forall j :: 0 <= j < |colors| ==> (inPalette[j] <==> j in center[..k])
  {
    hide Clustered, ErrorSum, Frequent, MostSoFar;
    UnassignedIsClustered(colors, dist[..], cluster[..]);
    var error, maxCount, winner := 0, 0, 0;
    k := 0;
    StartSeeding(count, threshold);
    assert center[..0] == [];
    for i := 0 to |colors|
      invariant k <= center.Length && center[..k] == Frequent(count, threshold, i)
      invariant Clustered(colors, center[..k], dist[..], cluster[..])
      invariant forall j :: 0 <= j < |colors| ==> (inPalette[j] <==> j in center[..k])
      invariant MostSoFar(count, i, maxCount, winner)
    {
      NextWinner(count, i, maxCount, winner);
      FrequentStep(count, threshold, i);
      if count[i] > maxCount {
        maxCount, winner := count[i], i;
      }
      if !inPalette[i] && count[i] > threshold {
        error := AddToRGBPalette(colors, count, i, k, dist, cluster, center, error);
        k := k + 1;
        inPalette[i] := true;
      }
    }
    WinnerIsMost(count, maxCount, winner);
    if k == 0 {
      error := AddToRGBPalette(colors, count, winner, k, dist, cluster, center, error);
      k := k + 1;
      inPalette[winner] := true;
    }
  }

  lemma StartSeeding(count: seq<nat>, threshold: nat)
    ensures Frequent(count, threshold, 0) == [] && MostSoFar(count, 0, 0, 0)
  {
  }

  lemma WinnerIsMost(count: seq<nat>, maxCount: nat, winner: nat)
    requires |count| > 0 && MostSoFar(count, |count|, maxCount, winner)
    ensures FirstMostFrequent(count, winner)
  {
  }

  // ---------------------------------------------------------------- the whole quantizer

  /** The histogram of an image, with densities and radii for the colours that are not seeds. */
  ghost predicate HistogramOf(h: Histogram, pixels: seq<Rgb>, seeds: seq<nat>) {
    && Indexes(h.colors, h.count, pixels) && |h.density| == |h.radius| == |h.colors|
    && forall i :: 0 <= i < |h.colors| ==>
         GridAt(h.colors, h.count, Off(|h.colors|, seeds), i, h.density[i], h.radius[i])
  }

  /** Which of n colours are not seeds. */
  function Off(n: nat, seeds: seq<nat>): (off: seq<bool>)
    ensures |off| == n && forall i :: 0 <= i < n ==> (off[i] <==> i !in seeds)
  {
    seq(n, i => i !in seeds)
  }

  lemma HistogramIsValid(h: Histogram, pixels: seq<Rgb>, seeds: seq<nat>)
    requires HistogramOf(h, pixels, seeds)
    ensures h.Valid()
  {
    hide RingCount, Radius, Sum, FirstSeen;
    forall i, l | 0 <= i < |h.colors| && 0 <= l < MAX_LEVEL
      ensures |h.density[i]| == |h.radius[i]| == MAX_LEVEL && h.density[i][l] >= 0
    {
      assert GridAt(h.colors, h.count, Off(|h.colors|, seeds), i, h.density[i], h.radius[i]);
    }
  }

  /** What the quantizer promises of its palette, as indices into the histogram: its seeds, greedy choices, and an end
      after exactly these rounds. */
  ghost predicate Quantization(h: Histogram, palette: seq<nat>, seeds: nat, numPixels: nat, maxPaletteSize: nat, rounds: seq<Round>)
    requires h.Valid()
  {
    && Indices(palette, |h.colors|) && 1 <= seeds <= |palette| <= maxPaletteSize && maxPaletteSize >= 1
    && IsSeed(palette[..seeds], h.count, 4 * numPixels / maxPaletteSize)
    && GreedyFrom(h, palette, seeds)
    && (exists key :: Rounds(h, palette[..seeds], rounds, palette, key)) && Ended(h, palette, maxPaletteSize, numPixels, rounds)
  }

  /** No colour is in the palette twice. */
  lemma PaletteWithoutRepeats(h: Histogram, palette: seq<nat>, seeds: nat, numPixels: nat, maxPaletteSize: nat,
                              rounds: seq<Round>, a: nat, b: nat)
    requires h.Valid() && Quantization(h, palette, seeds, numPixels, maxPaletteSize, rounds) && a < b < |palette|
    ensures h.colors[palette[a]] != h.colors[palette[b]]
  {
    hide Frequent, FirstMostFrequent, Ended, Rounds;
    var threshold := 4 * numPixels / maxPaletteSize;
    if b < seeds {
      var i, j := palette[..seeds][a], palette[..seeds][b];
      FrequentIncreases(h.count, threshold, |h.count|, a, b);
      assert i < j;
    } else {
      assert GreedyChoice(h, palette[..b], palette[b]);
      assert palette[..b][a] == palette[a];
    }
    assert palette[a] != palette[b];
  }

  method TotalError(dist: array<nat>, count: seq<nat>) returns (error: int)
    requires dist.Length == |count|
    ensures error == ErrorSum(dist[..], count)
  {
    error := 0;
    for i := 0 to dist.Length
      invariant error == ErrorSum(dist[..i], count[..i])
    {
      assert dist[..i + 1][..i] == dist[..i] && count[..i + 1][..i] == count[..i];
      error := error + dist[i] * count[i];
    }
    assert dist[..dist.Length] == dist[..] && count[..dist.Length] == count;
  }

  lemma SeedsFit(h: Histogram, pixels: seq<Rgb>, seeds: seq<nat>, numPixels: nat, maxPaletteSize: nat)
    requires Indexes(h.colors, h.count, pixels) && |pixels| == numPixels && maxPaletteSize >= 1
    ensures var k := |Frequent(h.count, 4 * numPixels / maxPaletteSize, |h.count|)|; k == 0 || 4 * k < maxPaletteSize
    ensures IsSeed(seeds, h.count, 4 * numPixels / maxPaletteSize) ==> |seeds| <= maxPaletteSize
  {
    hide Frequent, FirstSeen;
    FrequentAreFew(h.count, numPixels, maxPaletteSize);
  }

  lemma ColoursExist(colors: seq<Rgb>, count: seq<nat>, pixels: seq<Rgb>)
    requires Indexes(colors, count, pixels)
    ensures |count| == |colors| && (pixels != [] ==> colors != []) && forall i :: 0 <= i < |count| ==> count[i] > 0
  {
    assert pixels != [] ==> pixels[0] in pixels;
  }

  lemma StartGrowing(h: Histogram, palette: seq<nat>, dist: seq<nat>, cluster: seq<nat>, error: int,
                     buckets: seq<seq<nat>>, key: seq<nat>, top: int)
    requires h.Valid() && Clustered(h.colors, palette, dist, cluster) && |dist| == |h.count| && error == ErrorSum(dist, h.count)
    requires palette != [] && Indices(palette, |h.colors|) && Queue(h, palette, buckets, key, top)
    ensures Growing(h, palette, dist, cluster, error, |palette|, buckets, key, top)
    ensures -1 <= top < MAX_PRIORITY
  {
    hide ErrorSum, Assigned, Stored, InBucket, Distinct, h.Valid;
  }

  lemma MakeHistogram(colors: seq<Rgb>, count: seq<nat>, density: seq<seq<int>>, radius: seq<seq<nat>>, pixels: seq<Rgb>, seeds: seq<nat>)
    requires Indexes(colors, count, pixels) && |count| == |density| == |radius| == |colors|
    requires forall i :: 0 <= i < |colors| ==> GridAt(colors, count, Off(|colors|, seeds), i, density[i], radius[i])
    ensures var h := Histogram(colors, count, density, radius); HistogramOf(h, pixels, seeds) && h.Valid()
  {
    hide GridAt, Indexes;
    HistogramIsValid(Histogram(colors, count, density, radius), pixels, seeds);
  }

  /** From the histogram of colours on: seeds, densities, and the main loop. */
  method GrowFromSeeds(colors: seq<Rgb>, count: seq<nat>, ghost pixels: seq<Rgb>, numPixels: nat, maxPaletteSize: nat)
    returns (palette: seq<nat>, h: Histogram, seeds: nat, ghost rounds: seq<Round>)
    requires Indexes(colors, count, pixels) && |pixels| == numPixels >= 1 && 1 <= maxPaletteSize <= 256
    ensures seeds <= |palette| && HistogramOf(h, pixels, palette[..seeds]) && h.Valid() && h.colors == colors
    ensures Quantization(h, palette, seeds, numPixels, maxPaletteSize, rounds)
  {
    hide Indexes, Clustered, ErrorSum, Frequent, IsSeed, GridAt, HistogramOf, Queue, Growing, GreedyFrom, Nearest, Weight, Ended, Rounds, UpToDate;
    var n := |colors|;
    ColoursExist(colors, count, pixels);
    SeedsFit(Histogram(colors, count, [], []), pixels, [], numPixels, maxPaletteSize);
    var dist, cluster := new nat[n](_ => INT_MAX), new nat[n](_ => 0);
    var inPalette, center := new bool[n](_ => false), new nat[256](_ => 0);
    var k := SeedPalette(colors, count, 4 * numPixels / maxPaletteSize, dist, cluster, center, inPalette);
    ghost var seeded := center[..k];
    SeedsFit(Histogram(colors, count, [], []), pixels, seeded, numPixels, maxPaletteSize);
    var off := seq(n, i requires 0 <= i < n reads inPalette => !inPalette[i]);
    assert off == Off(n, seeded);
    var density, radius := BuildDensityGrid(colors, count, off);
    var hist := Histogram(colors, count, density, radius);
    MakeHistogram(colors, count, density, radius, pixels, seeded);
    var error := TotalError(dist, count);
    ClusteredIndices(colors, seeded, dist[..], cluster[..]);
    ClusteredError(hist, seeded, dist[..], cluster[..]);
    var buckets := new seq<nat>[MAX_PRIORITY](_ => []);
    var top; ghost var key;
    top, key := FillQueue(hist, seeded, inPalette, dist, buckets);
    StartGrowing(hist, seeded, dist[..], cluster[..], error, buckets[..], key, top);
    h, seeds := hist, k;
    k, error, rounds := GrowPalette(hist, dist, cluster, center, k, error, maxPaletteSize, numPixels, buckets, top, key);
    palette := center[..k];
    ClusteredIndices(colors, palette, dist[..], cluster[..]);
    PaletteFits(h, palette, maxPaletteSize, numPixels, rounds);
    assert palette[..seeds] == seeded;
  }

  lemma ClusteredIndices(colors: seq<Rgb>, palette: seq<nat>, dist: seq<nat>, cluster: seq<nat>)
    requires Clustered(colors, palette, dist, cluster)
    ensures Indices(palette, |colors|)
  {
  }

  lemma PaletteFits(h: Histogram, palette: seq<nat>, maxPaletteSize: nat, threshold: nat, rounds: seq<Round>)
    requires |h.colors| == |h.count| && Indices(palette, |h.colors|) && Ended(h, palette, maxPaletteSize, threshold, rounds)
    ensures |palette| <= maxPaletteSize
  {
  }

  /** Every entry of the colormap is some pixel of the image, up to 2 in each channel. */
  lemma EntryIsSeen(h: Histogram, image: seq<Byte>, numPixels: nat, seeds: seq<nat>, j: nat)
    requires 3 * numPixels <= |image| && HistogramOf(h, Pixels(image, numPixels), seeds) && j < |h.colors|
    ensures SeenIn(image, numPixels, h.colors[j])
  {
    hide PixelIs, Pixels, GridAt, FirstSeen;
    var pixels := Pixels(image, numPixels);
    assert h.colors[j] in pixels by {
      assert multiset(pixels)[h.colors[j]] > 0;
    }
    var i: nat :| i < |pixels| && pixels[i] == h.colors[j];
    PixelsAre(image, numPixels, i);
  }

  method ChooseColorMap2Pass(image: seq<Byte>, numPixels: nat, maxPaletteSize: nat)
    returns (colormap: seq<Rgb>, h: Histogram, palette: seq<nat>, seeds: nat, ghost rounds: seq<Round>)
    requires |image| == 3 * numPixels && numPixels >= 1 && 1 <= maxPaletteSize <= 256
    ensures seeds <= |palette| && HistogramOf(h, Pixels(image, numPixels), palette[..seeds]) && h.Valid()
    ensures Quantization(h, palette, seeds, numPixels, maxPaletteSize, rounds)
    ensures |colormap| == |palette| && forall i :: 0 <= i < |palette| ==> palette[i] < |h.colors| && colormap[i] == h.colors[palette[i]]
    ensures forall j :: 0 <= j < |colormap| ==> SeenIn(image, numPixels, colormap[j])
  {
    hide Indexes, Pixels, SeenIn, HistogramOf, h.Valid, GreedyFrom, IsSeed, Ended, Rounds;
    var maxColorCount := Max(numPixels, 0x4_0000);
    var colors := new Rgb[maxColorCount](_ => Rgb(0, 0, 0));
    var count := new nat[maxColorCount](_ => 0);
    var n := BuildRGBColorIndex(image, numPixels, count, colors);
    var center;
    center, h, seeds, rounds := GrowFromSeeds(colors[..n], count[..n], Pixels(image, numPixels), numPixels, maxPaletteSize);
    palette := center;
    colormap := [];
    for i := 0 to |center|
      invariant |colormap| == i && forall j :: 0 <= j < i ==> colormap[j] == h.colors[center[j]]
    {
      colormap := colormap + [colors[center[i]]];
    }
    forall j | 0 <= j < |colormap|
      ensures SeenIn(image, numPixels, colormap[j])
    {
      EntryIsSeen(h, image, numPixels, palette[..seeds], palette[j]);
    }
  }
}
