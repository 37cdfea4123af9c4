/** Adding a colour to the palette of the two-pass quantizer (lib/jpegli/color_quantize.cc): distances,
    clusters and the total error are updated in place. */
module Palette {
  import opened Arithmetic
  import opened RgbColors

  ghost predicate Indices(palette: seq<nat>, n: nat) {
    forall i :: 0 <= i < |palette| ==> palette[i] < n
  }

  /** The distance from colour j to the nearest palette entry; the largest int without any. */
  ghost function Nearest(colors: seq<Rgb>, palette: seq<nat>, j: nat): (d: nat)
    requires Indices(palette, |colors|) && j < |colors|
  {
    if palette == [] then INT_MAX else
    var d, before := Distance(colors[palette[|palette| - 1]], colors[j]), Nearest(colors, palette[..|palette| - 1], j);
    if d < before then d else before
  }

  /** It is the minimum over the palette: a lower bound that is attained. */
  lemma {:induction false} NearestIsMinimum(colors: seq<Rgb>, palette: seq<nat>, j: nat, d: nat)
    requires Indices(palette, |colors|) && j < |colors| && palette != []
    ensures d == Nearest(colors, palette, j) <==>
            && (forall i :: 0 <= i < |palette| ==> d <= Distance(colors[palette[i]], colors[j]))
            && (exists i :: 0 <= i < |palette| && d == Distance(colors[palette[i]], colors[j]))
  {
    hide Distance;
    var k := |palette| - 1;
    var last, before := Distance(colors[palette[k]], colors[j]), palette[..k];
    DistanceBound(colors[palette[k]], colors[j]);
    if k > 0 {
      var e := Nearest(colors, before, j);
      NearestIsMinimum(colors, before, j, e);
      var i :| 0 <= i < |before| && e == Distance(colors[before[i]], colors[j]);
      assert e == Distance(colors[palette[i]], colors[j]);
      assert forall i :: 0 <= i < k ==> palette[i] == before[i];
    } else {
      assert Nearest(colors, before, j) == INT_MAX;
    }
  }

  /** A colour is at distance 0 exactly when it is in the palette, as the colours are distinct. */
  lemma {:induction false} NearestZeroIff(colors: seq<Rgb>, palette: seq<nat>, j: nat)
    requires Indices(palette, |colors|) && j < |colors|
    requires forall a, b :: 0 <= a < b < |colors| ==> colors[a] != colors[b]
    ensures Nearest(colors, palette, j) == 0 <==> j in palette
  {
    hide Distance;
    if palette != [] {
      var k := |palette| - 1;
      NearestZeroIff(colors, palette[..k], j);
      DistanceIsSeparating(colors[palette[k]], colors[j]);
      assert palette == palette[..k] + [palette[k]];
    }
  }

  /** The distance to a longer palette is not larger. */
  lemma NearestShrinks(colors: seq<Rgb>, palette: seq<nat>, i: nat, j: nat)
    requires Indices(palette, |colors|) && i < |colors| && j < |colors|
    ensures Nearest(colors, palette + [i], j) <= Nearest(colors, palette, j)
    ensures Nearest(colors, palette + [i], j) ==
            if Distance(colors[i], colors[j]) < Nearest(colors, palette, j) then Distance(colors[i], colors[j])
            else Nearest(colors, palette, j)
  {
    assert (palette + [i])[..|palette|] == palette;
  }

  /** dist and cluster are right for colour j. */
  ghost predicate Assigned(colors: seq<Rgb>, palette: seq<nat>, j: nat, dist: nat, cluster: nat)
    requires Indices(palette, |colors|) && j < |colors|
  {
    && dist == Nearest(colors, palette, j)
    && (palette != [] ==> cluster < |palette| && dist == Distance(colors[palette[cluster]], colors[j]))
  }

  ghost predicate Clustered(colors: seq<Rgb>, palette: seq<nat>, dist: seq<nat>, cluster: seq<nat>) {
    && |dist| == |cluster| == |colors| && Indices(palette, |colors|)
    && (forall j :: 0 <= j < |colors| ==> Assigned(colors, palette, j, dist[j], cluster[j]))
  }

  /** The quantization error: distances weighted by the numbers of pixels. */
  ghost function ErrorSum(dist: seq<nat>, count: seq<nat>): nat
    requires |dist| == |count|
  {
    if dist == [] then 0 else
    ErrorSum(dist[..|dist| - 1], count[..|dist| - 1]) + dist[|dist| - 1] * count[|dist| - 1]
  }

  lemma {:induction false} ErrorUpdate(dist: seq<nat>, count: seq<nat>, j: nat, d: nat)
    requires j < |dist| == |count|
    ensures ErrorSum(dist[j := d], count) == ErrorSum(dist, count) + (d - dist[j]) * count[j]
  {
    var n, t := |dist| - 1, dist[j := d];
    if j < n {
      ErrorUpdate(dist[..n], count[..n], j, d);
      assert t[..n] == dist[..n][j := d];
    } else {
      assert t[..n] == dist[..n];
      Spread(count[j], d, dist[j]);
    }
  }

  /** What one colour gets when entry number k is added. */
  lemma AssignStep(colors: seq<Rgb>, palette: seq<nat>, i: nat, j: nat, dist: nat, cluster: nat, dist2: nat, cluster2: nat)
    requires Indices(palette, |colors|) && i < |colors| && j < |colors| && Assigned(colors, palette, j, dist, cluster)
    requires var d := Distance(colors[i], colors[j]);
             if dist > 0 && d < dist then dist2 == d && cluster2 == |palette| else dist2 == dist && cluster2 == cluster
    ensures Assigned(colors, palette + [i], j, dist2, cluster2)
  {
    hide Distance;
    NearestShrinks(colors, palette, i, j);
    DistanceBound(colors[i], colors[j]);
    assert palette != [] ==> (palette + [i])[cluster] == palette[cluster];
  }

  lemma AssignSelf(colors: seq<Rgb>, palette: seq<nat>, i: nat)
    requires Indices(palette, |colors|) && i < |colors|
    ensures Assigned(colors, palette + [i], i, 0, |palette|)
  {
    hide Distance;
    NearestShrinks(colors, palette, i, i);
    DistanceIsSeparating(colors[i], colors[i]);
  }

  /** Adding colour number `index` as palette entry k. Only colours off the palette are compared with it. */
  method AddToRGBPalette(colors: seq<Rgb>, count: seq<nat>, index: nat, k: nat, dist: array<nat>, cluster: array<nat>,
                         center: array<nat>, error: int)
    returns (newError: int)
    requires |count| == |colors| == dist.Length == cluster.Length && index < |colors| && k < center.Length
    requires dist != cluster && cluster != center && dist != center
    requires Clustered(colors, center[..k], dist[..], cluster[..])
    modifies dist, cluster, center
    ensures center[..k + 1] == old(center[..k]) + [index]
    ensures Clustered(colors, center[..k + 1], dist[..], cluster[..])
    ensures newError - ErrorSum(dist[..], count) == error - old(ErrorSum(dist[..], count))
  {
    hide Assigned, ErrorSum, Distance;
    ghost var palette, start := center[..k], error - ErrorSum(dist[..], count);
    ghost var dist0, cluster0 := dist[..], cluster[..];
    center[k] := index;
    cluster[index] := k;
    newError := error - dist[index] * count[index];
    ErrorUpdate(dist[..], count, index, 0);
    Spread(count[index], 0, dist[index]);
    dist[index] := 0;
    assert dist[..] == dist0[index := 0];
    AssignSelf(colors, palette, index);
    for j := 0 to |colors|
      invariant center[..k + 1] == palette + [index]
      invariant newError - ErrorSum(dist[..], count) == start
      invariant forall i :: 0 <= i < j ==> Assigned(colors, palette + [index], i, dist[i], cluster[i])
      invariant forall i :: j <= i < |colors| && i != index ==> dist[i] == dist0[i] && cluster[i] == cluster0[i]
      invariant dist[index] == 0 && cluster[index] == k
    {
      ghost var before := dist[..];
      if dist[j] > 0 {
        var d := Distance(colors[index], colors[j]);
        if d < dist[j] {
          newError := newError + (d as int - dist[j] as int) * count[j];
          ErrorUpdate(before, count, j, d);
          dist[j] := d;
          cluster[j] := k;
          assert dist[..] == before[j := d];
        }
      }
      if j != index {
        assert Assigned(colors, palette, j, dist0[j], cluster0[j]);
        AssignStep(colors, palette, index, j, dist0[j], cluster0[j], dist[j], cluster[j]);
      }
    }
  }
}
