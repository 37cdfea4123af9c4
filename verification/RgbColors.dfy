/** Distances, priorities and grid cells of RGB colours (lib/jpegli/color_quantize.cc). */
module RgbColors {
  import opened Arithmetic

  datatype Rgb = Rgb(r: Byte, g: Byte, b: Byte)

  const MAX_PRIORITY := 8192
  const MAX_LEVEL := 3

  /** ColorIntQuadDistanceRGB on a difference: the plain square plus the square of the weighted intensity. */
  function Quad(rd: int, gd: int, bd: int): nat {
    Square(rd) + Square(gd) + Square(bd) + Square(2 * rd + 5 * gd + bd) / 64
  }

  function Distance(a: Rgb, b: Rgb): nat {
    Quad(a.r - b.r, a.g - b.g, a.b - b.b)
  }

  /** Only equal colours are at distance 0, and the distance does not depend on the order. */
  lemma DistanceIsSeparating(a: Rgb, b: Rgb)
    ensures Distance(a, b) == 0 <==> a == b
    ensures Distance(a, b) == Distance(b, a)
  {
    QuadOfDifference(a.r - b.r, a.g - b.g, a.b - b.b);
    hide Quad;
  }

  lemma QuadOfDifference(rd: int, gd: int, bd: int)
    ensures Quad(-rd, -gd, -bd) == Quad(rd, gd, bd)
    ensures Quad(rd, gd, bd) == 0 <==> rd == gd == bd == 0
  {
    assert Square(0) == 0;
    SquareOfNegative(rd);
    SquareOfNegative(gd);
    SquareOfNegative(bd);
    SquareOfNegative(2 * rd + 5 * gd + bd);
    assert Square(rd) > 0 || rd == 0;
    assert Square(gd) > 0 || gd == 0;
    assert Square(bd) > 0 || bd == 0;
    hide Square;
  }

  /** A larger spread in every component is a larger distance. */
  lemma QuadMono(r: int, g: int, b: int, rm: int, gm: int, bm: int)
    requires -rm <= r <= rm && -gm <= g <= gm && -bm <= b <= bm
    ensures Quad(r, g, b) <= Quad(rm, gm, bm)
  {
    SquareMono(r, rm);
    SquareMono(g, gm);
    SquareMono(b, bm);
    SquareMono(2 * r + 5 * g + b, 2 * rm + 5 * gm + bm);
    hide Square;
  }

  lemma DistanceBound(a: Rgb, b: Rgb)
    ensures Distance(a, b) <= 260100
  {
    QuadMono(a.r - b.r, a.g - b.g, a.b - b.b, 255, 255, 255);
    assert Quad(255, 255, 255) == 260100;
  }

  // ---------------------------------------------------------------- the scaled distance

  /** r is the square root of d / 4, rounded half up. */
  predicate IsScaled(d: nat, r: nat) {
    (r == 0 || Square(2 * r - 1) <= d) && d < Square(2 * r + 1)
  }

  /** The rounded square root, as an integer search. */
  function ScaleFrom(d: nat, r: nat): (s: nat)
    requires r == 0 || Square(2 * r - 1) <= d
    ensures IsScaled(d, s)
    decreases d - r
  {
    if d < Square(2 * r + 1) then r
    else
      SquareAtLeast(2 * r + 1);
      ScaleFrom(d, r + 1)
  }

  lemma SquareAtLeast(a: nat)
    ensures Square(a) >= a
  {
  }

  function ScaleQuadDistance(d: nat): (r: nat)
    ensures IsScaled(d, r)
  {
    ScaleFrom(d, 0)
  }

  /** There is one such root, and it does not fall when the distance grows. */
  lemma ScaledMonotone(d: nat, e: nat, r: nat, s: nat)
    requires d <= e && IsScaled(d, r) && IsScaled(e, s)
    ensures r <= s
    ensures d == e ==> r == s
  {
    if s < r {
      SquareMono(2 * s + 1, 2 * r - 1);
    }
    if r < s && d == e {
      SquareMono(2 * r + 1, 2 * s - 1);
    }
  }

  // ---------------------------------------------------------------- priorities

  /** What one grid level adds to the priority. */
  function LevelTerm(d: nat, density: int, radius: nat): int {
    if d > radius then density * (d - radius) else 0
  }

  function Priority(d: nat, n: nat, density: seq<int>, radius: seq<nat>): int
    requires |density| == |radius| == MAX_LEVEL
  {
    var p := d * n + LevelTerm(d, density[0], radius[0]) + LevelTerm(d, density[1], radius[1]) + LevelTerm(d, density[2], radius[2]);
    if p / 16 < MAX_PRIORITY - 1 then p / 16 else MAX_PRIORITY - 1
  }

  /** The loop over the levels. */
  method PriorityOf(d: nat, n: nat, density: seq<int>, radius: seq<nat>) returns (p: int)
    requires |density| == |radius| == MAX_LEVEL
    ensures p == Priority(d, n, density, radius)
  {
    p := d * n;
    ghost var terms := [LevelTerm(d, density[0], radius[0]), LevelTerm(d, density[1], radius[1]), LevelTerm(d, density[2], radius[2])];
    for level := 0 to MAX_LEVEL
      invariant p == d * n + (if level > 0 then terms[0] else 0) + (if level > 1 then terms[1] else 0) + (if level > 2 then terms[2] else 0)
    {
      if d > radius[level] {
        p := p + density[level] * (d - radius[level]);
      }
    }
    p := if p / 16 < MAX_PRIORITY - 1 then p / 16 else MAX_PRIORITY - 1;
  }

  /** Outside all radii every level counts, inside none. */
  lemma PriorityByRadius(d: nat, n: nat, density: seq<int>, radius: seq<nat>)
    requires |density| == |radius| == MAX_LEVEL && forall l :: 0 <= l < MAX_LEVEL ==> density[l] >= 0
    ensures (forall l :: 0 <= l < MAX_LEVEL ==> radius[l] < d) ==>
      var p := d * n + density[0] * (d - radius[0]) + density[1] * (d - radius[1]) + density[2] * (d - radius[2]);
      if p < 131056 then 16 * Priority(d, n, density, radius) <= p < 16 * Priority(d, n, density, radius) + 16
      else Priority(d, n, density, radius) == 8191
    ensures (forall l :: 0 <= l < MAX_LEVEL ==> d <= radius[l]) && d * n < 131056 ==>
      16 * Priority(d, n, density, radius) <= d * n < 16 * Priority(d, n, density, radius) + 16
  {
  }

  /** What a difference of one channel alone makes. */
  lemma DistanceByChannel(a: Rgb, x: Byte)
    ensures var d := a.r as int - x as int; Distance(a, a.(r := x)) == Square(d) + Square(2 * d) / 64
    ensures var d := a.g as int - x as int; Distance(a, a.(g := x)) == Square(d) + Square(5 * d) / 64
    ensures var d := a.b as int - x as int; Distance(a, a.(b := x)) == Square(d) + Square(d) / 64
  {
    assert Square(0) == 0;
    hide Square;
  }

  /** Between two greys the scaled distance is the difference of their levels. */
  lemma GreyDistance(a: Byte, x: Byte)
    requires a <= x
    ensures ScaleQuadDistance(Distance(Rgb(a, a, a), Rgb(x, x, x))) == x as int - a as int
  {
    hide ScaleQuadDistance, IsScaled;
    var d: nat := x as int - a as int;
    GreyQuad(d);
    Root(d);
    ScaledMonotone(4 * (d * d), 4 * (d * d), ScaleQuadDistance(4 * (d * d)), d);
  }

  lemma GreyQuad(d: int)
    ensures Quad(-d, -d, -d) == 4 * (d * d)
  {
    var m := d * d;
    assert Square(-d) == m;
    assert 2 * -d + 5 * -d + -d == -8 * d;
    assert Square(-8 * d) == 64 * m;
  }

  lemma Root(d: nat)
    ensures IsScaled(4 * (d * d), d)
  {
    var m := d * d;
    assert Square(2 * d + 1) == 4 * m + 4 * d + 1;
    assert d > 0 ==> Square(2 * d - 1) == 4 * m - 4 * d + 1;
    hide Square;
  }

  lemma TermMono(d: nat, e: nat, density: int, radius: nat)
    requires d <= e && density >= 0
    ensures 0 <= LevelTerm(d, density, radius) <= LevelTerm(e, density, radius)
  {
    if d > radius {
      MulMono(density, d - radius, e - radius);
    } else if e > radius {
      MulMono(density, 0, e - radius);
    }
  }

  lemma MulMono(n: nat, a: nat, b: nat)
    requires a <= b
    ensures 0 <= n * a <= n * b
  {
  }

  /** With non-negative densities the priority does not rise when the distance falls. */
  lemma PriorityMonotone(d: nat, e: nat, n: nat, density: seq<int>, radius: seq<nat>)
    requires |density| == |radius| == MAX_LEVEL && d <= e && forall l :: 0 <= l < MAX_LEVEL ==> density[l] >= 0
    ensures 0 <= Priority(d, n, density, radius) <= Priority(e, n, density, radius) < MAX_PRIORITY
  {
    hide LevelTerm;
    MulMono(n, d, e);
    TermMono(d, e, density[0], radius[0]);
    TermMono(d, e, density[1], radius[1]);
    TermMono(d, e, density[2], radius[2]);
  }
}
