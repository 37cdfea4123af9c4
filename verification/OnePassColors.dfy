/** The arithmetic of the one-pass quantizer (lib/jpegli/color_quantize.cc): evenly spaced levels for
    each component, and the level that the lookup table assigns to a sample. */
module OnePassColors {
  import opened Arithmetic
  import opened MixedRadix

  function Pow(a: nat, b: nat): nat {
    if b == 0 then 1 else Pow(a, b - 1) * a
  }

  /** The loop of the source's own power function. */
  method IntPow(a: nat, b: nat) returns (r: nat)
    ensures r == Pow(a, b)
  {
    r := 1;
    for i := 0 to b
      invariant r == Pow(a, i)
    {
      r := r * a;
    }
  }

  lemma {:induction false} PowMono(a: nat, b: nat, n: nat)
    requires a <= b
    ensures Pow(a, n) <= Pow(b, n)
  {
    if n > 0 {
      PowMono(a, b, n - 1);
      MulMono2(Pow(a, n - 1), Pow(b, n - 1), a, b);
    }
  }

  lemma MulMono2(p: nat, q: nat, a: nat, b: nat)
    requires p <= q && a <= b
    ensures p * a <= q * b
  {
    assert p * a <= q * a <= q * b;
  }

  lemma {:induction false} PowAtLeastBase(a: nat, n: nat)
    requires a >= 1 && n >= 1
    ensures Pow(a, n) >= a
  {
    if n > 1 {
      PowAtLeastBase(a, n - 1);
      MulMono2(a, Pow(a, n - 1), 1, a);
    }
  }

  /** Equal radices multiply to a power. */
  lemma {:induction false} ProductOfEqual(radix: seq<nat>, a: nat, c: nat)
    requires c <= |radix| && forall k :: 0 <= k < |radix| ==> radix[k] == a
    ensures ProductFrom(radix, c) == Pow(a, |radix| - c)
    decreases |radix| - c
  {
    if c < |radix| {
      ProductOfEqual(radix, a, c + 1);
    }
  }

  // ---------------------------------------------------------------- growing the number of levels

  /** One radix as a factor of the whole product. */
  lemma {:induction false} ProductAt(radix: seq<nat>, k: nat, x: nat, c: nat)
    requires c <= k < |radix|
    ensures ProductFrom(radix[k := x], c) == x * ProductFrom(radix[k := 1], c)
    decreases k - c
  {
    if c < k {
      ProductAt(radix, k, x, c + 1);
      Swap(radix[c], x, ProductFrom(radix[k := 1], c + 1));
    } else {
      SameTail(radix[k := x], radix[k := 1], k + 1);
    }
  }

  lemma Swap(a: nat, x: nat, p: nat)
    ensures a * (x * p) == x * (a * p)
  {
  }

  lemma {:induction false} SameTail(a: seq<nat>, b: seq<nat>, c: nat)
    requires |a| == |b| && c <= |a| && forall k :: c <= k < |a| ==> a[k] == b[k]
    ensures ProductFrom(a, c) == ProductFrom(b, c)
    decreases |a| - c
  {
    if c < |a| {
      SameTail(a, b, c + 1);
    }
  }

  /** The product after component c has received one more level. */
  ghost function Raised(numColors: seq<nat>, c: nat): nat
    requires c < |numColors|
  {
    ProductFrom(numColors[c := numColors[c] + 1], 0)
  }

  /** The division by the old number of levels is exact, so the source computes the new product. */
  lemma RaisedProduct(numColors: seq<nat>, c: nat)
    requires c < |numColors| && numColors[c] > 0
    ensures ProductFrom(numColors, 0) / numColors[c] * (numColors[c] + 1) == Raised(numColors, c)
    ensures ProductFrom(numColors, 0) > 0 ==> Raised(numColors, c) > ProductFrom(numColors, 0)
  {
    var others := ProductFrom(numColors[c := 1], 0);
    assert numColors[c := numColors[c]] == numColors;
    ProductAt(numColors, c, numColors[c], 0);
    ProductAt(numColors, c, numColors[c] + 1, 0);
    ExactQuotient(numColors[c], others);
  }

  lemma ExactQuotient(n: nat, others: nat)
    requires n > 0
    ensures (n * others) / n == others
    ensures others * (n + 1) == (n + 1) * others && (n + 1) * others == n * others + others
    ensures n * others > 0 ==> others > 0
  {
    QuotientIs(n * others, n, others);
  }

  lemma QuotientIs(a: nat, n: nat, q: nat)
    requires n > 0 && a == n * q
    ensures a / n == q
  {
    QuotientUnique(a / n, q, n, a % n, 0);
  }

  // ---------------------------------------------------------------- levels

  /** The sample value of level i out of N. */
  function GetColorComponent(i: nat, N: nat): int
    requires N >= 2
  {
    (i * 255 + (N - 1) / 2) / (N - 1)
  }

  /** The C++ division: the quotient is rounded towards zero. */
  function TruncDiv(a: int, b: int): int
    requires b > 0
  {
    if a >= 0 then a / b else -(-a / b)
  }

  /** The level that the lookup table holds for sample value i. */
  function LevelIndex(i: Byte, N: nat): int
    requires N >= 2
  {
    TruncDiv((2 * i - 1) * (N - 1) + 254, 510)
  }

  /** Where a rounded level lies, times the number of steps S = N - 1. */
  lemma LevelBounds(i: nat, S: nat)
    requires S >= 1
    ensures var v := GetColorComponent(i, S + 1);
            510 * i - S + 1 <= 2 * (S * v) <= 510 * i + S
  {
    var a := i * 255 + S / 2;
    var v := a / S;
    assert a == S * v + a % S;
  }

  lemma LevelMonotone(i: nat, j: nat, S: nat)
    requires S >= 1 && i <= j
    ensures GetColorComponent(i, S + 1) <= GetColorComponent(j, S + 1)
  {
    DivMonotone(i * 255 + S / 2, j * 255 + S / 2, S);
  }

  lemma DivMonotone(a: nat, b: nat, s: nat)
    requires a <= b && s > 0
    ensures a / s <= b / s
  {
    Unscaled(s, a / s, b / s + 1);
  }

  /** The thresholds between levels: level j takes the samples with (2i - 1)S in (510j - 255, 510j + 255].
      Only for sample 0 at 256 levels is the lower bound met exactly; truncation then gives level 0, not -1. */
  lemma LevelIndexBounds(i: Byte, N: nat)
    requires 2 <= N <= 256
    ensures var j, x := LevelIndex(i, N), 2 * ((N - 1) * i) - (N - 1);
            0 <= j < N && 510 * j - 255 <= x <= 510 * j + 255 && (j > 0 ==> 510 * j - 255 < x)
  {
    var S := N - 1;
    var x := (2 * i - 1) * S;
    assert x == 2 * (S * i) - S;
    Scaled(S, i, 255);
    if i > 0 {
      Scaled(S, 1, i);
    }
    ThresholdQuotient(x);
  }

  lemma LevelInRadix(i: Byte, N: nat)
    requires 2 <= N <= 256
    ensures 0 <= LevelIndex(i, N) < N
  {
    LevelIndexBounds(i, N);
  }

  function ChosenLevel(x: Byte, N: nat): (j: nat)
    requires 2 <= N <= 256
    ensures j < N
  {
    LevelInRadix(x, N);
    LevelIndex(x, N)
  }

  /** The sample that a pixel's sample is replaced by. */
  function ChosenSample(x: Byte, N: nat): int
    requires 2 <= N <= 256
  {
    GetColorComponent(ChosenLevel(x, N), N)
  }

  lemma ThresholdQuotient(x: int)
    requires x >= -255
    ensures var j := TruncDiv(x + 254, 510); 0 <= j && 510 * j - 255 <= x <= 510 * j + 255 && (j > 0 ==> 510 * j - 255 < x)
  {
  }

  lemma LevelInRange(i: nat, N: nat)
    requires N >= 2 && i < N
    ensures 0 <= GetColorComponent(i, N) < 256
  {
    var S := N - 1;
    LevelBounds(i, S);
    var v := GetColorComponent(i, N);
    if S >= 2 || i > 0 {
      Unscaled(S, v, 256);
    }
  }

  function Distance(a: int, b: int): nat {
    if a < b then b - a else a - b
  }

  /** The level chosen for a sample is within half a step (and rounding) of it. */
  lemma ChosenLevelIsClose(i: Byte, N: nat)
    requires 2 <= N <= 256
    ensures 2 * ((N - 1) * Distance(ChosenSample(i, N), i)) <= 255 + 2 * (N - 1)
  {
    hide LevelIndex, GetColorComponent;
    LevelIndexBounds(i, N);
    var S, j := N - 1, LevelIndex(i, N);
    LevelBounds(j, S);
    var v := GetColorComponent(j, N);
    Spread(S, v, i);
    Spread(S, i, v);
  }

  /** No level is nearer to the sample by more than one. */
  lemma ChosenLevelIsNearest(i: Byte, N: nat, other: nat)
    requires 2 <= N <= 256 && other < N
    ensures Distance(ChosenSample(i, N), i) <= Distance(GetColorComponent(other, N), i) + 1
  {
    hide LevelIndex, GetColorComponent;
    LevelIndexBounds(i, N);
    var S, j := N - 1, LevelIndex(i, N);
    LevelBounds(j, S);
    LevelBounds(other, S);
    var v, w := GetColorComponent(j, N), GetColorComponent(other, N);
    Spread(S, v, i);
    Spread(S, i, w);
    Spread(S, w, i);
    if other < j {
      LevelMonotone(other, j, S);
      Unscaled(S, v - i, i - w);
    } else if other > j {
      LevelMonotone(j, other, S);
      Spread(S, i - v, 2);
      Spread(S, i, v);
      Unscaled(S, i - v - 2, w - i);
    }
  }

  /** The sample lies half a unit above the midpoint of levels k and k + 1, and below the threshold between them. */
  ghost predicate RoundedDown(i: Byte, N: nat, k: nat)
    requires N >= 2
  {
    k + 1 < N && GetColorComponent(k, N) + GetColorComponent(k + 1, N) == 2 * i - 1 && (2 * i - 1) * (N - 1) <= 510 * k + 255
  }

  /** Some level is nearer to the sample than the chosen one. */
  ghost predicate Missed(i: Byte, N: nat)
    requires 2 <= N <= 256
  {
    exists other: nat :: other < N && Distance(GetColorComponent(other, N), i) < Distance(ChosenSample(i, N), i)
  }

  lemma BelowThreshold(S: nat, i: int, j: nat, u: int, v: int)
    requires 510 * j - 255 < 2 * (S * i) - S && 2 * (S * u) <= 510 * j - 510 + S && 2 * (S * v) <= 510 * j + S
    ensures u < i && u + v < 2 * i
  {
    Unscaled(S, u, i);
    Spread(S, u, i);
    Spread(S, i, v);
    Unscaled(S, u - i, i - v);
  }

  lemma AboveThreshold(S: nat, i: int, j: nat, w: int)
    requires 2 * (S * i) - S <= 510 * j + 255 && 510 * j + 511 - S <= 2 * (S * w)
    ensures i <= w
  {
    Spread(S, i, 1);
    Unscaled(S, i - 1, w);
  }

  /** Lower levels are never nearer, and the next one is not below the sample. */
  lemma NeighboursOfChosen(i: Byte, N: nat)
    requires 2 <= N <= 256
    ensures var j := ChosenLevel(i, N);
            && (j > 0 ==> GetColorComponent(j - 1, N) < i && GetColorComponent(j - 1, N) + GetColorComponent(j, N) < 2 * i)
            && (j + 1 < N ==> GetColorComponent(j + 1, N) >= i)
  {
    hide LevelIndex, GetColorComponent;
    LevelIndexBounds(i, N);
    var S, j := N - 1, ChosenLevel(i, N);
    LevelBounds(j, S);
    if j > 0 {
      LevelBounds(j - 1, S);
      BelowThreshold(S, i, j, GetColorComponent(j - 1, N), GetColorComponent(j, N));
    }
    if j + 1 < N {
      LevelBounds(j + 1, S);
      AboveThreshold(S, i, j, GetColorComponent(j + 1, N));
    }
  }

  lemma ThresholdProduct(i: int, N: int)
    ensures (2 * i - 1) * (N - 1) == 2 * ((N - 1) * i) - (N - 1)
  {
  }

  lemma MissIsRoundedDown(i: Byte, N: nat, other: nat)
    requires 2 <= N <= 256 && other < N && Distance(GetColorComponent(other, N), i) < Distance(ChosenSample(i, N), i)
    ensures RoundedDown(i, N, ChosenLevel(i, N))
  {
    NeighboursOfChosen(i, N);
    LevelIndexBounds(i, N);
    ThresholdProduct(i, N);
    var j := ChosenLevel(i, N);
    hide GetColorComponent, LevelIndex;
    if other < j {
      LevelMonotone(other, j - 1, N - 1);
      LevelMonotone(j - 1, j, N - 1);
      assert false;
    } else {
      LevelMonotone(j, j + 1, N - 1);
      LevelMonotone(j + 1, other, N - 1);
      ChosenLevelIsNearest(i, N, j + 1);
    }
  }

  lemma RoundedDownIsMiss(i: Byte, N: nat, k: nat)
    requires 2 <= N <= 256 && RoundedDown(i, N, k)
    ensures Distance(GetColorComponent(k + 1, N), i) < Distance(ChosenSample(i, N), i)
  {
    LevelIndexBounds(i, N);
    ThresholdProduct(i, N);
    hide LevelIndex, GetColorComponent;
    LevelMonotone(ChosenLevel(i, N), k, N - 1);
    LevelMonotone(k, k + 1, N - 1);
  }

  /** The nearest level is chosen for all samples but those that lie half a unit above the midpoint of two
      neighbouring levels and not above the threshold between them. */
  lemma ChosenLevelMissesIff(i: Byte, N: nat)
    requires 2 <= N <= 256
    ensures Missed(i, N) <==> exists k: nat :: k + 1 < N && RoundedDown(i, N, k)
  {
    hide LevelIndex, GetColorComponent, RoundedDown;
    if Missed(i, N) {
      var other: nat :| other < N && Distance(GetColorComponent(other, N), i) < Distance(ChosenSample(i, N), i);
      MissIsRoundedDown(i, N, other);
      InRadix(i, N, ChosenLevel(i, N));
    }
    if k: nat :| k + 1 < N && RoundedDown(i, N, k) {
      RoundedDownIsMiss(i, N, k);
    }
  }

  lemma InRadix(i: Byte, N: nat, k: nat)
    requires N >= 2 && RoundedDown(i, N, k)
    ensures k + 1 < N
  {
  }

  /** With two levels the sample 128 gets 0, which is farther than 255. */
  lemma ChosenLevelCanBeSecondNearest()
    ensures RoundedDown(128, 2, 0) && Distance(ChosenSample(128, 2), 128) == Distance(GetColorComponent(1, 2), 128) + 1
  {
  }
}
