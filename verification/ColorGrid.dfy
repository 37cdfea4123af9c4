/** The multi-resolution density grid of the two-pass quantizer (lib/jpegli/color_quantize.cc): cubic
    cells of 4, 8 and 16 sample values, addressed by interlacing the bits of the components. */
module ColorGrid {
  import opened Arithmetic
  import opened RgbColors

  /** The lowest `bits` bits of the components, interlaced: three bits of the key for each bit position. */
  function Interlaced(r: nat, g: nat, b: nat, bits: nat): nat {
    if bits == 0 then 0 else 8 * Interlaced(r / 2, g / 2, b / 2, bits - 1) + 4 * (r % 2) + 2 * (g % 2) + b % 2
  }

  /** Appending one bit to each component appends three bits to the key. */
  lemma AppendBits(r: nat, g: nat, b: nat, x: nat, y: nat, z: nat, bits: nat)
    requires x <= 1 && y <= 1 && z <= 1
    ensures Interlaced(2 * r + x, 2 * g + y, 2 * b + z, bits + 1) == 8 * Interlaced(r, g, b, bits) + 4 * x + 2 * y + z
  {
    Halves(r, x);
    Halves(g, y);
    Halves(b, z);
  }

  lemma Halves(r: nat, x: nat)
    requires x <= 1
    ensures (2 * r + x) / 2 == r && (2 * r + x) % 2 == x
  {
  }

  /** The loop takes the bits from the top of each byte: h is what has been taken, the rest has moved up. */
  ghost predicate Taken(x: nat, h: int, rest: int, p: nat) {
    h >= 0 && 0 <= rest < 256 && p * x == h * 256 + rest
  }

  lemma TakeTopBit(x: nat, h: int, rest: int, p: nat)
    requires Taken(x, h, rest, p)
    ensures Taken(x, 2 * h + rest / 128, 2 * rest % 256, 2 * p) && 0 <= rest / 128 <= 1
  {
    assert 2 * rest == rest / 128 * 256 + 2 * rest % 256;
    assert (2 * p) * x == 2 * (p * x);
  }

  method InterlaceBitsRGB(c: Rgb) returns (z: int)
    ensures z == Interlaced(c.r, c.g, c.b, 8)
  {
    hide Interlaced, Taken;
    z := 0;
    var r: int, g: int, b: int := c.r, c.g, c.b;
    ghost var hr: nat, hg: nat, hb: nat, p: nat := 0, 0, 0, 1;
    StartTaking(c);
    for i := 0 to 7
      invariant z == 8 * Interlaced(hr, hg, hb, i) && p == [1, 2, 4, 8, 16, 32, 64, 128][i]
      invariant Taken(c.r, hr, r, p) && Taken(c.g, hg, g, p) && Taken(c.b, hb, b, p)
    {
      TakeTopBit(c.r, hr, r, p);
      TakeTopBit(c.g, hg, g, p);
      TakeTopBit(c.b, hb, b, p);
      AppendBits(hr, hg, hb, r / 128, g / 128, b / 128, i);
      z := z + r / 128 * 4;
      z := z + g / 128 * 2;
      z := z + b / 128;
      z := z * 8;
      hr, hg, hb, p := 2 * hr + r / 128, 2 * hg + g / 128, 2 * hb + b / 128, 2 * p;
      r, g, b := 2 * r % 256, 2 * g % 256, 2 * b % 256;
    }
    TakeLastBit(c.r, hr, r);
    TakeLastBit(c.g, hg, g);
    TakeLastBit(c.b, hb, b);
    AppendBits(hr, hg, hb, r / 128, g / 128, b / 128, 7);
    z := z + r / 128 * 4;
    z := z + g / 128 * 2;
    z := z + b / 128;
  }

  lemma StartTaking(c: Rgb)
    ensures Taken(c.r, 0, c.r, 1) && Taken(c.g, 0, c.g, 1) && Taken(c.b, 0, c.b, 1)
    ensures Interlaced(0, 0, 0, 0) == 0
  {
  }

  lemma TakeLastBit(x: nat, h: nat, rest: int)
    requires Taken(x, h, rest, 128)
    ensures 2 * h + rest / 128 == x && 0 <= rest / 128 <= 1
  {
  }

  /** The side of a cell of a level. */
  function Side(level: nat): nat
    requires level < MAX_LEVEL
  {
    if level == 0 then 4 else if level == 1 then 8 else 16
  }

  /** key >> (3 * level). */
  function ShiftKey(key: nat, level: nat): nat {
    if level == 0 then key else ShiftKey(key, level - 1) / 8
  }

  /** The grid key of a colour: level 0 drops the two lowest bits of each component, each level one more. */
  function Key(c: Rgb, level: nat): nat {
    ShiftKey(Interlaced(c.r, c.g, c.b, 8) / 64, level)
  }

  predicate SameCell(a: Rgb, b: Rgb, level: nat)
    requires level < MAX_LEVEL
  {
    a.r / Side(level) == b.r / Side(level) && a.g / Side(level) == b.g / Side(level) && a.b / Side(level) == b.b / Side(level)
  }

  lemma DropBit(r: nat, g: nat, b: nat, bits: nat)
    requires bits > 0
    ensures Interlaced(r, g, b, bits) / 8 == Interlaced(r / 2, g / 2, b / 2, bits - 1)
  {
  }

  lemma KeyIsCell(c: Rgb, level: nat)
    requires level < MAX_LEVEL
    ensures Key(c, level) == Interlaced(c.r / Side(level), c.g / Side(level), c.b / Side(level), 6 - level)
  {
    hide Interlaced;
    DropBit(c.r, c.g, c.b, 8);
    DropBit(c.r / 2, c.g / 2, c.b / 2, 7);
    DropBit(c.r / 4, c.g / 4, c.b / 4, 6);
    DropBit(c.r / 8, c.g / 8, c.b / 8, 5);
    assert c.r / 2 / 2 == c.r / 4 && c.r / 4 / 2 == c.r / 8 && c.r / 8 / 2 == c.r / 16;
    assert c.g / 2 / 2 == c.g / 4 && c.g / 4 / 2 == c.g / 8 && c.g / 8 / 2 == c.g / 16;
    assert c.b / 2 / 2 == c.b / 4 && c.b / 4 / 2 == c.b / 8 && c.b / 8 / 2 == c.b / 16;
    assert forall x: nat :: x / 64 == x / 8 / 8;
    assert Key(c, 0) == Interlaced(c.r / 4, c.g / 4, c.b / 4, 6);
    assert Key(c, 1) == Interlaced(c.r / 8, c.g / 8, c.b / 8, 5);
    assert level == 2 ==> Key(c, 2) == Key(c, 1) / 8;
  }

  function PowerOfTwo(n: nat): nat {
    if n == 0 then 1 else 2 * PowerOfTwo(n - 1)
  }

  lemma OctalDigits(a: nat, x: nat, y: nat, z: nat, b: nat, u: nat, v: nat, w: nat)
    requires x <= 1 && y <= 1 && z <= 1 && u <= 1 && v <= 1 && w <= 1
    requires 8 * a + 4 * x + 2 * y + z == 8 * b + 4 * u + 2 * v + w
    ensures a == b && x == u && y == v && z == w
  {
  }

  lemma {:induction false} InterlacedInjective(r: nat, g: nat, b: nat, s: nat, h: nat, c: nat, bits: nat)
    requires Interlaced(r, g, b, bits) == Interlaced(s, h, c, bits)
    requires var p := PowerOfTwo(bits); r < p && g < p && b < p && s < p && h < p && c < p
    ensures r == s && g == h && b == c
  {
    if bits > 0 {
      OctalDigits(Interlaced(r / 2, g / 2, b / 2, bits - 1), r % 2, g % 2, b % 2,
                  Interlaced(s / 2, h / 2, c / 2, bits - 1), s % 2, h % 2, c % 2);
      InterlacedInjective(r / 2, g / 2, b / 2, s / 2, h / 2, c / 2, bits - 1);
    }
  }

  lemma CellsFit(x: Byte, level: nat)
    requires level < MAX_LEVEL
    ensures x / Side(level) < PowerOfTwo(6 - level)
  {
    assert PowerOfTwo(4) == 16;
    assert PowerOfTwo(6) == 64;
  }

  /** Two colours have the same key exactly when they lie in the same cell. */
  lemma SameKeyIffSameCell(a: Rgb, b: Rgb, level: nat)
    requires level < MAX_LEVEL
    ensures Key(a, level) == Key(b, level) <==> SameCell(a, b, level)
  {
    hide Key, Interlaced, PowerOfTwo;
    KeyIsCell(a, level);
    KeyIsCell(b, level);
    CellsFit(a.r, level);
    CellsFit(a.g, level);
    CellsFit(a.b, level);
    CellsFit(b.r, level);
    CellsFit(b.g, level);
    CellsFit(b.b, level);
    if Key(a, level) == Key(b, level) {
      var s := Side(level);
      InterlacedInjective(a.r / s, a.g / s, a.b / s, b.r / s, b.g / s, b.b / s, 6 - level);
    }
  }

  // ---------------------------------------------------------------- the radius of a cell around a colour

  /** The larger distance from a sample to the ends of its cell. */
  function Reach(x: Byte, level: nat): nat
    requires level < MAX_LEVEL
  {
    var offset := x as int % Side(level);
    Max(offset, Side(level) - 1 - offset)
  }

  function Radius(c: Rgb, level: nat): nat
    requires level < MAX_LEVEL
  {
    ScaleQuadDistance(Distance(Rgb(0, 0, 0), Rgb(Reach(c.r, level), Reach(c.g, level), Reach(c.b, level))))
  }

  lemma ReachCovers(x: Byte, y: Byte, level: nat)
    requires level < MAX_LEVEL && x / Side(level) == y / Side(level)
    ensures x - y <= Reach(x, level) && y - x <= Reach(x, level)
  {
  }

  /** Some value of the interval is as far as that. */
  lemma ReachAttained(x: Byte, level: nat) returns (y: Byte)
    requires level < MAX_LEVEL
    ensures x / Side(level) == y / Side(level) && (x - y == Reach(x, level) || y - x == Reach(x, level))
  {
    var offset := x as int % Side(level);
    var low := x as int - offset;
    y := if offset >= Side(level) - 1 - offset then low else low + Side(level) - 1;
  }

  method RadiusOf(c: Rgb, level: nat) returns (r: nat)
    requires level < MAX_LEVEL
    ensures r == Radius(c, level)
  {
    var mask := Side(level) - 1;
    var rd := Max(c.r % (mask + 1), mask - c.r % (mask + 1));
    var gd := Max(c.g % (mask + 1), mask - c.g % (mask + 1));
    var bd := Max(c.b % (mask + 1), mask - c.b % (mask + 1));
    r := ScaleQuadDistance(Distance(Rgb(0, 0, 0), Rgb(rd, gd, bd)));
  }

  /** No colour of the cell is farther than the radius. */
  lemma RadiusCoversCell(a: Rgb, b: Rgb, level: nat)
    requires level < MAX_LEVEL && SameCell(a, b, level)
    ensures ScaleQuadDistance(Distance(a, b)) <= Radius(a, level)
  {
    ReachCovers(a.r, b.r, level);
    ReachCovers(a.g, b.g, level);
    ReachCovers(a.b, b.b, level);
    hide Reach, Side, SameCell, IsScaled;
    var corner := Rgb(Reach(a.r, level), Reach(a.g, level), Reach(a.b, level));
    QuadMono(a.r - b.r, a.g - b.g, a.b - b.b, corner.r, corner.g, corner.b);
    assert Distance(corner, Rgb(0, 0, 0)) == Quad(corner.r, corner.g, corner.b);
    DistanceIsSeparating(corner, Rgb(0, 0, 0));
    ScaledMonotone(Distance(a, b), Distance(Rgb(0, 0, 0), corner),
                   ScaleQuadDistance(Distance(a, b)), ScaleQuadDistance(Distance(Rgb(0, 0, 0), corner)));
  }

  // ---------------------------------------------------------------- densities

  /** The pixels of the colours below k that are off the palette and have a key. */
  function KeyCount(colors: seq<Rgb>, count: seq<nat>, off: seq<bool>, level: nat, key: nat, k: nat): nat
    requires k <= |colors| == |count| == |off|
  {
    if k == 0 then 0 else
    KeyCount(colors, count, off, level, key, k - 1) + (if off[k - 1] && Key(colors[k - 1], level) == key then count[k - 1] else 0)
  }

  /** Colour j lies in the cell of colour i on this level but not on the next finer one; on the finest level
      it is any other colour of the cell. */
  predicate InRing(colors: seq<Rgb>, i: nat, j: nat, level: nat)
    requires i < |colors| && j < |colors| && level < MAX_LEVEL
  {
    SameCell(colors[i], colors[j], level) && (if level == 0 then j != i else !SameCell(colors[i], colors[j], level - 1))
  }

  /** The pixels of the colours below k that are off the palette and in a ring around colour i. */
  function RingCount(colors: seq<Rgb>, count: seq<nat>, off: seq<bool>, i: nat, level: nat, k: nat): nat
    requires k <= |colors| == |count| == |off| && i < |colors| && level < MAX_LEVEL
  {
    if k == 0 then 0 else
    RingCount(colors, count, off, i, level, k - 1) + (if off[k - 1] && InRing(colors, i, k - 1, level) then count[k - 1] else 0)
  }

  lemma CellsNest(a: Rgb, b: Rgb, level: nat)
    requires 0 < level < MAX_LEVEL && SameCell(a, b, level - 1)
    ensures SameCell(a, b, level)
  {
    Halving(a.r);
    Halving(b.r);
    Halving(a.g);
    Halving(b.g);
    Halving(a.b);
    Halving(b.b);
  }

  lemma Halving(x: nat)
    ensures x / 4 / 2 == x / 8 && x / 8 / 2 == x / 16
  {
  }

  /** The difference of the counts of two levels is what lies in the ring between them. */
  lemma {:induction false} RingIsDifference(colors: seq<Rgb>, count: seq<nat>, off: seq<bool>, i: nat, level: nat, k: nat)
    requires k <= |colors| == |count| == |off| && i < |colors| && 0 < level < MAX_LEVEL
    ensures RingCount(colors, count, off, i, level, k) ==
            KeyCount(colors, count, off, level, Key(colors[i], level), k)
          - KeyCount(colors, count, off, level - 1, Key(colors[i], level - 1), k)
  {
    hide Key, SameCell;
    if k > 0 {
      RingIsDifference(colors, count, off, i, level, k - 1);
      SameKeyIffSameCell(colors[i], colors[k - 1], level);
      SameKeyIffSameCell(colors[i], colors[k - 1], level - 1);
      if SameCell(colors[i], colors[k - 1], level - 1) {
        CellsNest(colors[i], colors[k - 1], level);
      }
    }
  }

  lemma {:induction false} FinestRing(colors: seq<Rgb>, count: seq<nat>, off: seq<bool>, i: nat, k: nat)
    requires k <= |colors| == |count| == |off| && i < |colors| && off[i]
    ensures RingCount(colors, count, off, i, 0, k) ==
            KeyCount(colors, count, off, 0, Key(colors[i], 0), k) - (if i < k then count[i] else 0)
  {
    hide Key, SameCell;
    if k > 0 {
      FinestRing(colors, count, off, i, k - 1);
      SameKeyIffSameCell(colors[i], colors[k - 1], 0);
    }
  }

  // ---------------------------------------------------------------- building the grid

  type Counts = map<nat, nat>

  function Get(m: Counts, key: nat): nat {
    if key in m then m[key] else 0
  }

  ghost predicate Counted(m: Counts, colors: seq<Rgb>, count: seq<nat>, off: seq<bool>, level: nat, k: nat)
    requires k <= |colors| == |count| == |off|
  {
    forall key: nat :: Get(m, key) == KeyCount(colors, count, off, level, key, k)
  }

  lemma CountedNext(m: Counts, colors: seq<Rgb>, count: seq<nat>, off: seq<bool>, level: nat, k: nat)
    requires k < |colors| == |count| == |off| && Counted(m, colors, count, off, level, k)
    ensures var key := Key(colors[k], level);
            Counted(if off[k] then m[key := Get(m, key) + count[k]] else m, colors, count, off, level, k + 1)
  {
    hide Key;
    var own := Key(colors[k], level);
    var next := if off[k] then m[own := Get(m, own) + count[k]] else m;
    forall key: nat
      ensures Get(next, key) == KeyCount(colors, count, off, level, key, k + 1)
    {
      assert Get(m, key) == KeyCount(colors, count, off, level, key, k);
    }
  }

  method CountCells(colors: seq<Rgb>, count: seq<nat>, off: seq<bool>) returns (histogram: seq<Counts>)
    requires |colors| == |count| == |off|
    ensures |histogram| == MAX_LEVEL
    ensures forall level :: 0 <= level < MAX_LEVEL ==> Counted(histogram[level], colors, count, off, level, |colors|)
  {
    hide Key, Interlaced;
    histogram := [map[], map[], map[]];
    for i := 0 to |colors|
      invariant |histogram| == MAX_LEVEL
      invariant forall l :: 0 <= l < MAX_LEVEL ==> Counted(histogram[l], colors, count, off, l, i)
    {
      hide Counted;
      if off[i] {
        var z := InterlaceBitsRGB(colors[i]);
        var key: nat := z / 64;
        for level := 0 to MAX_LEVEL
          invariant |histogram| == MAX_LEVEL
          invariant forall l :: 0 <= l < level ==> Counted(histogram[l], colors, count, off, l, i + 1)
          invariant forall l :: level <= l < MAX_LEVEL ==> Counted(histogram[l], colors, count, off, l, i)
        {
          KeyOfInterlaced(colors[i], z, level);
          CountedNext(histogram[level], colors, count, off, level, i);
          var k: nat := ShiftKey(key, level);
          var m: Counts := histogram[level];
          histogram := histogram[level := m[k := Get(m, k) + count[i]]];
        }
      } else {
        forall l | 0 <= l < MAX_LEVEL
          ensures Counted(histogram[l], colors, count, off, l, i + 1)
        {
          CountedNext(histogram[l], colors, count, off, l, i);
        }
      }
    }
  }

  lemma KeyOfInterlaced(c: Rgb, z: nat, level: nat)
    requires z == Interlaced(c.r, c.g, c.b, 8)
    ensures ShiftKey(z / 64, level) == Key(c, level)
  {
  }

  /** The density and radius of colour i on every level. */
  ghost predicate GridAt(colors: seq<Rgb>, count: seq<nat>, off: seq<bool>, i: nat, density: seq<int>, radius: seq<nat>)
    requires |colors| == |count| == |off| && i < |colors|
  {
    && |density| == |radius| == MAX_LEVEL
    && (forall level :: 0 <= level < MAX_LEVEL ==>
          && density[level] == (if off[i] then RingCount(colors, count, off, i, level, |colors|) else 0)
          && radius[level] == (if off[i] then Radius(colors[i], level) else 0))
  }

  method GridOf(colors: seq<Rgb>, count: seq<nat>, off: seq<bool>, i: nat, histogram: seq<Counts>)
    returns (density: seq<int>, radius: seq<nat>)
    requires |colors| == |count| == |off| && i < |colors| && off[i] && |histogram| == MAX_LEVEL
    requires forall level :: 0 <= level < MAX_LEVEL ==> Counted(histogram[level], colors, count, off, level, |colors|)
    ensures GridAt(colors, count, off, i, density, radius)
  {
    hide Key, Interlaced, Radius, KeyCount, RingCount;
    radius := [];
    for level := 0 to MAX_LEVEL
      invariant |radius| == level && forall l :: 0 <= l < level ==> radius[l] == Radius(colors[i], l)
    {
      var r := RadiusOf(colors[i], level);
      radius := radius + [r];
    }
    var z := InterlaceBitsRGB(colors[i]);
    var key: nat := z / 64;
    KeyOfInterlaced(colors[i], z, 0);
    FinestRing(colors, count, off, i, |colors|);
    density := [Get(histogram[0], key) - count[i]];
    for level := 1 to MAX_LEVEL
      invariant |density| == level && forall l :: 0 <= l < level ==> density[l] == RingCount(colors, count, off, i, l, |colors|)
    {
      KeyOfInterlaced(colors[i], z, level);
      KeyOfInterlaced(colors[i], z, level - 1);
      RingIsDifference(colors, count, off, i, level, |colors|);
      density := density + [Get(histogram[level], ShiftKey(key, level)) - Get(histogram[level - 1], ShiftKey(key, level - 1))];
    }
  }

  method BuildDensityGrid(colors: seq<Rgb>, count: seq<nat>, off: seq<bool>)
    returns (density: seq<seq<int>>, radius: seq<seq<nat>>)
    requires |colors| == |count| == |off|
    ensures |density| == |radius| == |colors|
    ensures forall i :: 0 <= i < |colors| ==> GridAt(colors, count, off, i, density[i], radius[i])
  {
    hide Radius, RingCount, Counted;
    var histogram := CountCells(colors, count, off);
    density, radius := [], [];
    for i := 0 to |colors|
      invariant |density| == |radius| == i
      invariant forall j :: 0 <= j < i ==> GridAt(colors, count, off, j, density[j], radius[j])
    {
      var d, r := [0, 0, 0], [0, 0, 0];
      if off[i] {
        d, r := GridOf(colors, count, off, i, histogram);
      }
      density, radius := density + [d], radius + [r];
    }
  }
}
