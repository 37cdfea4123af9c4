/** The index of the distinct colours of an image, with their numbers of pixels, and the colours that are
    frequent enough to enter the palette at once (lib/jpegli/color_quantize.cc). */
module ColorIndex {
  import opened Arithmetic
  import opened RgbColors

  /** Six bits of each sample are kept. */
  function Quantized(x: Byte): Byte {
    x / 4 * 4 + 2
  }

  function PixelAt(image: seq<Byte>, i: nat): Rgb
    requires 3 * i + 2 < |image|
  {
    Rgb(Quantized(image[3 * i]), Quantized(image[3 * i + 1]), Quantized(image[3 * i + 2]))
  }

  /** The channels of pixel i are bytes 3i, 3i + 1 and 3i + 2, moved by at most 2 to the middle of four values. */
  ghost predicate PixelIs(image: seq<Byte>, i: nat, c: Rgb) {
    && 3 * i + 2 < |image| && c.r % 4 == c.g % 4 == c.b % 4 == 2
    && -2 <= c.r - image[3 * i] <= 2 && -2 <= c.g - image[3 * i + 1] <= 2 && -2 <= c.b - image[3 * i + 2] <= 2
  }

  ghost predicate SeenIn(image: seq<Byte>, n: nat, c: Rgb) {
    exists i: nat :: i < n && PixelIs(image, i, c)
  }

  /** The quantised pixels of an image of interleaved samples. */
  function Pixels(image: seq<Byte>, n: nat): (p: seq<Rgb>)
    requires 3 * n <= |image|
    ensures |p| == n
  {
    if n == 0 then [] else
      Pixels(image, n - 1) + [PixelAt(image, n - 1)]
  }

  lemma {:induction false} PixelsAre(image: seq<Byte>, n: nat, i: nat)
    requires 3 * n <= |image| && i < n
    ensures PixelIs(image, i, Pixels(image, n)[i])
  {
    if i < n - 1 {
      PixelsAre(image, n - 1, i);
    }
  }

  /** The hash key of a colour. */
  function Packed(c: Rgb): nat {
    c.b * 0x1_0000 + c.g * 0x100 + c.r
  }

  lemma PackedInjective(a: Rgb, b: Rgb)
    ensures Packed(a) == Packed(b) <==> a == b
    ensures Packed(a) < 0x100_0000
  {
    Unpacked(a);
    Unpacked(b);
    hide Packed;
  }

  lemma Unpacked(c: Rgb)
    ensures Packed(c) % 0x100 == c.r && Packed(c) / 0x100 % 0x100 == c.g && Packed(c) / 0x1_0000 == c.b
    ensures Packed(c) < 0x100_0000
  {
    var low := c.g * 0x100 + c.r;
    assert Packed(c) == c.b * 0x1_0000 + low && 0 <= low < 0x1_0000;
    assert Packed(c) / 0x1_0000 == c.b;
    assert Packed(c) == (c.b * 0x100 + c.g) * 0x100 + c.r;
    assert Packed(c) / 0x100 == c.b * 0x100 + c.g;
  }

  function Sum(s: seq<nat>): nat {
    if s == [] then 0 else Sum(s[..|s| - 1]) + s[|s| - 1]
  }

  lemma {:induction false} SumUpdate(s: seq<nat>, i: nat, x: nat)
    requires i < |s|
    ensures Sum(s[i := x]) == Sum(s) + x - s[i]
  {
    var t := s[i := x];
    if i < |s| - 1 {
      SumUpdate(s[..|s| - 1], i, x);
      assert t[..|s| - 1] == s[..|s| - 1][i := x];
    } else {
      assert t[..|s| - 1] == s[..|s| - 1];
    }
  }

  /** Each colour once, in order of appearance. */
  function FirstSeen(pixels: seq<Rgb>): seq<Rgb> {
    if pixels == [] then [] else
    var before, last := FirstSeen(pixels[..|pixels| - 1]), pixels[|pixels| - 1];
    if last in before then before else before + [last]
  }

  /** The colours are the distinct pixels in order of appearance, and the counts their multiplicities. */
  ghost predicate Indexes(colors: seq<Rgb>, count: seq<nat>, pixels: seq<Rgb>) {
    && colors == FirstSeen(pixels) && |colors| == |count|
    && (forall i, j :: 0 <= i < j < |colors| ==> colors[i] != colors[j])
    && (forall i :: 0 <= i < |colors| ==> count[i] == multiset(pixels)[colors[i]] > 0)
    && (forall c :: c in pixels ==> c in colors)
    && Sum(count) == |pixels|
  }

  /** The keys of the map are the colours seen so far, each with its index. */
  ghost predicate Mapped(m: map<nat, nat>, colors: seq<Rgb>) {
    && (forall i :: 0 <= i < |colors| ==> Packed(colors[i]) in m && m[Packed(colors[i])] == i)
    && (forall k :: k in m ==> m[k] < |colors| && Packed(colors[m[k]]) == k)
  }

  lemma IndexNew(colors: seq<Rgb>, count: seq<nat>, pixels: seq<Rgb>, c: Rgb)
    requires Indexes(colors, count, pixels) && c !in colors
    ensures Indexes(colors + [c], count + [1], pixels + [c])
  {
    var colors2, count2 := colors + [c], count + [1];
    assert count2[..|count2| - 1] == count && (pixels + [c])[..|pixels|] == pixels;
    assert c !in multiset(pixels);
    assert multiset(pixels + [c]) == multiset(pixels) + multiset{c};
    forall i | 0 <= i < |colors|
      ensures colors2[i] != c
    {
      assert colors2[i] in colors;
    }
  }

  lemma IndexKnown(colors: seq<Rgb>, count: seq<nat>, pixels: seq<Rgb>, i: nat)
    requires Indexes(colors, count, pixels) && i < |colors|
    ensures Indexes(colors, count[i := count[i] + 1], pixels + [colors[i]])
  {
    SumUpdate(count, i, count[i] + 1);
    assert (pixels + [colors[i]])[..|pixels|] == pixels;
    assert multiset(pixels + [colors[i]]) == multiset(pixels) + multiset{colors[i]};
  }

  lemma PackedKnown(m: map<nat, nat>, colors: seq<Rgb>, c: Rgb)
    requires Mapped(m, colors)
    ensures Packed(c) in m <==> c in colors
    ensures Packed(c) in m ==> colors[m[Packed(c)]] == c
  {
    forall d: Rgb
      ensures Packed(c) == Packed(d) ==> c == d
    {
      PackedInjective(c, d);
    }
  }

  lemma MapNew(m: map<nat, nat>, colors: seq<Rgb>, c: Rgb)
    requires Mapped(m, colors) && Packed(c) !in m
    ensures Mapped(m[Packed(c) := |colors|], colors + [c])
  {
  }

  lemma PixelsNext(image: seq<Byte>, i: nat)
    requires 3 * i + 2 < |image|
    ensures Pixels(image, i + 1) == Pixels(image, i) + [PixelAt(image, i)]
  {
  }

  /** Counting pixels by colour. The map is consulted only when a pixel differs from the one before it. */
  method BuildRGBColorIndex(image: seq<Byte>, numPixels: nat, count: array<nat>, colors: array<Rgb>) returns (n: nat)
    requires |image| == 3 * numPixels && count.Length == colors.Length >= numPixels
    requires forall i :: 0 <= i < count.Length ==> count[i] == 0
    modifies count, colors
    ensures n <= numPixels && Indexes(colors[..n], count[..n], Pixels(image, numPixels))
  {
    hide Indexes, Mapped, Packed, Quantized, Pixels, PixelAt;
    var impossiblePixelValue: nat := 0x1000_0000;
    var indexMap: map<nat, nat> := map[];
    var prevPixel, index := impossiblePixelValue, 0;
    n := 0;
    StartIndex(image);
    for i := 0 to numPixels
      invariant n <= i && Indexes(colors[..n], count[..n], Pixels(image, i)) && Mapped(indexMap, colors[..n])
      invariant prevPixel != impossiblePixelValue ==> index < n && prevPixel == Packed(colors[index])
      invariant forall j :: n <= j < count.Length ==> count[j] == 0
    {
      var c := PixelAt(image, i);
      ghost var colors0, count0, pixels0 := colors[..n], count[..n], Pixels(image, i);
      PixelsNext(image, i);
      var pixel := Packed(c);
      PackedInjective(c, c);
      PackedKnown(indexMap, colors0, c);
      if pixel != prevPixel {
        prevPixel := pixel;
        if pixel in indexMap {
          IndexInRange(indexMap, colors0, pixel);
          index := indexMap[pixel];
        } else {
          index, n := n, n + 1;
          MapNew(indexMap, colors0, c);
          indexMap := indexMap[pixel := index];
          colors[index] := c;
        }
      } else {
        PackedInjective(c, colors[index]);
      }
      count[index] := count[index] + 1;
      if n > |colors0| {
        IndexNew(colors0, count0, pixels0, c);
        assert colors[..n] == colors0 + [c] && count[..n] == count0 + [1];
      } else {
        IndexKnown(colors0, count0, pixels0, index);
        assert colors[..n] == colors0 && count[..n] == count0[index := count0[index] + 1];
      }
    }
  }

  lemma IndexInRange(m: map<nat, nat>, colors: seq<Rgb>, pixel: nat)
    requires Mapped(m, colors) && pixel in m
    ensures m[pixel] < |colors|
  {
  }

  lemma StartIndex(image: seq<Byte>)
    ensures Indexes([], [], Pixels(image, 0)) && Mapped(map[], [])
  {
  }

  // ---------------------------------------------------------------- frequent colours

  /** The indices below k whose count exceeds the threshold, in order. */
  function Frequent(count: seq<nat>, threshold: nat, k: nat): seq<nat>
    requires k <= |count|
  {
    if k == 0 then []
    else if count[k - 1] > threshold then Frequent(count, threshold, k - 1) + [k - 1]
    else Frequent(count, threshold, k - 1)
  }

  lemma {:induction false} FrequentIff(count: seq<nat>, threshold: nat, k: nat, i: nat)
    requires k <= |count|
    ensures i in Frequent(count, threshold, k) <==> i < k && count[i] > threshold
  {
    if k > 0 {
      FrequentIff(count, threshold, k - 1, i);
    }
  }

  lemma {:induction false} FrequentIncreases(count: seq<nat>, threshold: nat, k: nat, a: nat, b: nat)
    requires k <= |count| && a < b < |Frequent(count, threshold, k)|
    ensures Frequent(count, threshold, k)[a] < Frequent(count, threshold, k)[b]
  {
    var before := Frequent(count, threshold, k - 1);
    if b < |before| {
      FrequentIncreases(count, threshold, k - 1, a, b);
    } else {
      FrequentIff(count, threshold, k - 1, before[a]);
    }
  }

  lemma {:induction false} FrequentGrows(count: seq<nat>, threshold: nat, k: nat, n: nat)
    requires k <= n <= |count|
    ensures |Frequent(count, threshold, k)| <= |Frequent(count, threshold, n)|
  {
    if k < n {
      FrequentGrows(count, threshold, k, n - 1);
    }
  }

  lemma FrequentStep(count: seq<nat>, threshold: nat, k: nat)
    requires k < |count|
    ensures Frequent(count, threshold, k + 1) == Frequent(count, threshold, k) + (if count[k] > threshold then [k] else [])
    ensures |Frequent(count, threshold, k + 1)| <= |Frequent(count, threshold, |count|)|
    ensures k !in Frequent(count, threshold, k)
  {
    FrequentGrows(count, threshold, k + 1, |count|);
    FrequentIff(count, threshold, k, k);
  }

  /** Their pixels alone exceed the threshold times their number. */
  lemma {:induction false} FrequentWeight(count: seq<nat>, threshold: nat, k: nat)
    requires k <= |count|
    ensures |Frequent(count, threshold, k)| * (threshold + 1) <= Sum(count[..k])
  {
    if k > 0 {
      FrequentWeight(count, threshold, k - 1);
      assert count[..k][..k - 1] == count[..k - 1];
      OneMore(|Frequent(count, threshold, k - 1)|, threshold + 1);
    }
  }

  lemma OneMore(n: nat, t: nat)
    ensures (n + 1) * t == n * t + t
  {
  }

  /** Fewer than a quarter of the palette is taken by frequent colours: each has more than its share of
      four times the pixels. */
  lemma FrequentAreFew(count: seq<nat>, numPixels: nat, maxPaletteSize: nat)
    requires Sum(count) == numPixels && maxPaletteSize >= 1
    ensures var k := |Frequent(count, 4 * numPixels / maxPaletteSize, |count|)|; k == 0 || 4 * k < maxPaletteSize
  {
    hide *;
    var threshold: nat := 4 * numPixels / maxPaletteSize;
    FrequentWeight(count, threshold, |count|);
    assert count[..|count|] == count;
    ShareExceeded(|Frequent(count, threshold, |count|)|, threshold, numPixels, maxPaletteSize);
  }

  lemma ShareExceeded(k: nat, threshold: nat, p: nat, m: nat)
    requires m >= 1 && threshold == 4 * p / m && k * (threshold + 1) <= p
    ensures k == 0 || 4 * k < m
  {
    var t := threshold + 1;
    RemainderSmall(4 * p, m, t);
    assert (4 * k) * t == 4 * (k * t);
    if k > 0 {
      CancelFactor(4 * k, m, t);
    }
  }

  lemma RemainderSmall(a: nat, m: nat, t: nat)
    requires m >= 1 && t == a / m + 1
    ensures a < m * t
  {
    assert m * (a / m) + a % m == a;
  }

  lemma CancelFactor(a: nat, b: nat, t: nat)
    requires a * t < b * t
    ensures a < b
  {
  }
}
