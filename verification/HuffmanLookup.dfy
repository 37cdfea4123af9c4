/**
 The two-level lookup tables of the Huffman decoder: what one lookup finds, and the entries that make
 it find a code of the canonical code.
 */
module HuffmanLookup {
  import opened Arithmetic
  import opened BitStrings
  import opened HuffmanCode

  /** A table entry: in the root table, more than eight bits mean that the value leads to a second table. */
  datatype Entry = Entry(bits: nat, value: nat)

  const LUT_SIZE := 1024

  type Lut = seq<Entry>

  /** The place in the second table for a window of 16 bits. */
  function SecondIndex(lut: Lut, w: nat): nat
    requires |lut| == LUT_SIZE && w < 0x1_0000 && 8 < lut[w / 256].bits <= 16
  {
    NatQuotient(w % 256, Pow2(16 - lut[w / 256].bits));
    w / 256 + lut[w / 256].value + w % 256 / Pow2(16 - lut[w / 256].bits)
  }

  lemma NatQuotient(x: nat, p: int)
    requires p > 0
    ensures x / p >= 0
  {
  }

  /** The length and the symbol that the decoder finds for the next 16 bits. */
  function Lookup(lut: Lut, w: nat): (nat, nat)
    requires |lut| == LUT_SIZE && w < 0x1_0000
  {
    var e := lut[w / 256];
    if 8 < e.bits <= 16 && SecondIndex(lut, w) < LUT_SIZE
    then (8 + lut[SecondIndex(lut, w)].bits, lut[SecondIndex(lut, w)].value)
    else (e.bits, e.value)
  }

  /** The lookup for a window reads only root entries before key and second entries before top. */
  ghost predicate Covered(lut: Lut, w: nat, key: nat, top: nat)
    requires |lut| == LUT_SIZE && w < 0x1_0000
  {
    && w / 256 < key
    && (lut[w / 256].bits > 8 ==> lut[w / 256].bits <= 16 && 256 <= SecondIndex(lut, w) < top)
  }

  /** The window is in range, and its lookup gives this length and value. */
  ghost predicate Finds(lut: Lut, w: nat, bits: nat, value: nat, key: nat, top: nat)
    requires |lut| == LUT_SIZE
  {
    w < 0x1_0000 && Covered(lut, w, key, top) && Lookup(lut, w) == (bits, value)
  }

  /** Every window that begins with the code of symbol p gives its length and value. */
  ghost predicate Decodes(lut: Lut, sizes: seq<nat>, values: seq<nat>, p: nat, key: nat, top: nat) {
    && |lut| == LUT_SIZE && CodeLengths(sizes) && p < |sizes| <= |values|
    && forall w: nat :: Space(sizes, p) <= w < Space(sizes, p + 1) ==> Finds(lut, w, sizes[p], values[p], key, top)
  }

  ghost predicate Known(lut: Lut, sizes: seq<nat>, values: seq<nat>, idx: nat, key: nat, top: nat) {
    forall p: nat :: p < idx ==> Decodes(lut, sizes, values, p, key, top)
  }

  /** Entries that have not been written. */
  ghost predicate Untouched(lut: Lut, lut0: Lut, key: nat, top: nat) {
    |lut| == |lut0| == LUT_SIZE &&
    forall i :: key <= i < 256 || (256 <= top <= i < LUT_SIZE) ==> lut[i] == lut0[i]
  }

  lemma LookupStays(lut: Lut, lut2: Lut, w: nat, key: nat, top: nat)
    requires |lut| == |lut2| == LUT_SIZE && w < 0x1_0000 && key <= 256 && top <= LUT_SIZE && Covered(lut, w, key, top)
    requires forall i :: 0 <= i < key || 256 <= i < top ==> lut2[i] == lut[i]
    ensures Lookup(lut2, w) == Lookup(lut, w) && Covered(lut2, w, key, top)
  {
    hide Pow2;
  }

  /** Writing new entries leaves the symbols that are done as they are. */
  lemma KnownStays(lut: Lut, lut2: Lut, sizes: seq<nat>, values: seq<nat>, idx: nat, key: nat, top: nat, key2: nat, top2: nat)
    requires |lut| == |lut2| == LUT_SIZE && key <= key2 <= 256 && top <= top2 <= LUT_SIZE
    requires forall i :: 0 <= i < key || 256 <= i < top ==> lut2[i] == lut[i]
    requires Known(lut, sizes, values, idx, key, top)
    ensures Known(lut2, sizes, values, idx, key2, top2)
  {
    hide Lookup, SecondIndex, Space;
    forall p: nat | p < idx
      ensures Decodes(lut2, sizes, values, p, key2, top2)
    {
      assert Decodes(lut, sizes, values, p, key, top);
      forall w: nat | Space(sizes, p) <= w < Space(sizes, p + 1)
        ensures Finds(lut2, w, sizes[p], values[p], key2, top2)
      {
        assert Finds(lut, w, sizes[p], values[p], key, top);
        LookupStays(lut, lut2, w, key, top);
      }
    }
  }

  // ---------------------------------------------------------------- one code in each table

  lemma RootUnits(len: nat)
    requires 1 <= len <= 8
    ensures Pow2(16 - len) == 256 * Pow2(8 - len)
  {
    Pow2Sum(8, 8 - len);
    Pow2Of8();
  }

  /** A code of up to eight bits fills all root entries that begin with it. */
  lemma RootRun(lut: Lut, sizes: seq<nat>, values: seq<nat>, p: nat, key: nat, top: nat)
    requires |lut| == LUT_SIZE && CodeLengths(sizes) && p < |sizes| <= |values| && sizes[p] <= 8
    requires Space(sizes, p) == 256 * key && Space(sizes, p + 1) <= 0x1_0000
    requires forall i :: key <= i < key + Pow2(8 - sizes[p]) && i < LUT_SIZE ==> lut[i] == Entry(sizes[p], values[p])
    ensures Space(sizes, p + 1) == 256 * (key + Pow2(8 - sizes[p])) && key + Pow2(8 - sizes[p]) <= 256
    ensures Decodes(lut, sizes, values, p, key + Pow2(8 - sizes[p]), top)
  {
    RootUnits(sizes[p]);
    SpaceNext(sizes, p);
    var key2 := key + Pow2(8 - sizes[p]);
    hide Pow2, Space;
    forall w: nat | Space(sizes, p) <= w < Space(sizes, p + 1)
      ensures Finds(lut, w, sizes[p], values[p], key2, top)
    {
      assert key <= w / 256 < key2;
    }
  }

  lemma SpaceNext(sizes: seq<nat>, p: nat)
    requires CodeLengths(sizes) && p < |sizes|
    ensures Space(sizes, p + 1) == Space(sizes, p) + Pow2(16 - sizes[p])
  {
  }

  lemma SubUnits(len: nat, tb: nat)
    requires 8 < len <= 8 + tb && tb <= 8
    ensures Pow2(16 - len) == Pow2(8 + tb - len) * Pow2(8 - tb) && Pow2(tb) * Pow2(8 - tb) == 256
  {
    Pow2Sum(8 + tb - len, 8 - tb);
    Pow2Sum(tb, 8 - tb);
    Pow2Of8();
  }

  lemma DivideIn(low: nat, u: nat, d: nat, reps: nat)
    requires u > 0 && d < reps * u
    ensures low <= (low * u + d) / u < low + reps
  {
    var x := low * u + d;
    assert x == u * (x / u) + x % u;
    Unscaled(u, low, x / u + 1);
    Unscaled(u, x / u, low + reps);
  }

  lemma Fits256(low: nat, reps: nat, size: nat, u: nat)
    requires low + reps <= size && size * u == 256
    ensures low * u + reps * u <= 256
  {
    assert (low + reps) * u <= size * u;
  }

  /** The window of a longer code: its first byte leads to the second table, its second byte to the entries of the code. */
  lemma SubWindow(lut: Lut, w: nat, key: nat, base: nat, tb: nat, low: nat, d: nat, reps: nat)
    requires |lut| == LUT_SIZE && 1 <= key <= 256 <= base && 1 <= tb <= 8 && lut[key - 1] == Entry(tb + 8, base - (key - 1))
    requires low + reps <= Pow2(tb) && d < reps * Pow2(8 - tb) && w == (key - 1) * 256 + low * Pow2(8 - tb) + d
    requires base + Pow2(tb) <= LUT_SIZE
    ensures w < 0x1_0000 && w / 256 == key - 1 && base + low <= SecondIndex(lut, w) < base + low + reps
  {
    SubUnits(8 + tb, tb);
    hide Pow2;
    var u := Pow2(8 - tb);
    Fits256(low, reps, Pow2(tb), u);
    assert w / 256 == key - 1 && w % 256 == low * u + d;
    DivideIn(low, u, d, reps);
  }

  lemma SubRun(lut: Lut, sizes: seq<nat>, values: seq<nat>, p: nat, key: nat, base: nat, tb: nat, low: nat)
    requires |lut| == LUT_SIZE && CodeLengths(sizes) && p < |sizes| <= |values| && 1 <= tb <= 8 && 8 < sizes[p] <= 8 + tb
    requires 1 <= key <= 256 <= base && base + Pow2(tb) <= LUT_SIZE && lut[key - 1] == Entry(tb + 8, base - (key - 1))
    requires Space(sizes, p) == (key - 1) * 256 + low * Pow2(8 - tb) && low + Pow2(8 + tb - sizes[p]) <= Pow2(tb)
    requires forall i :: base + low <= i < base + low + Pow2(8 + tb - sizes[p]) ==> lut[i] == Entry(sizes[p] - 8, values[p])
    ensures Space(sizes, p + 1) == (key - 1) * 256 + (low + Pow2(8 + tb - sizes[p])) * Pow2(8 - tb)
    ensures Decodes(lut, sizes, values, p, key, base + low + Pow2(8 + tb - sizes[p]))
  {
    hide *;
    var reps := Pow2(8 + tb - sizes[p]);
    var top2 := base + low + reps;
    SpaceNext(sizes, p);
    SubUnits(sizes[p], tb);
    AddedFactor(low, reps, Pow2(8 - tb));
    forall w: nat | Space(sizes, p) <= w < Space(sizes, p + 1)
      ensures Finds(lut, w, sizes[p], values[p], key, top2)
    {
      SubFinds(lut, w, sizes[p], values[p], key, base, tb, low, w - Space(sizes, p), reps);
    }
    AllFind(lut, sizes, values, p, key, top2);
  }

  lemma SubFinds(lut: Lut, w: nat, len: nat, value: nat, key: nat, base: nat, tb: nat, low: nat, d: nat, reps: nat)
    requires |lut| == LUT_SIZE && 1 <= key <= 256 <= base && 1 <= tb <= 8 && lut[key - 1] == Entry(tb + 8, base - (key - 1))
    requires low + reps <= Pow2(tb) && d < reps * Pow2(8 - tb) && w == (key - 1) * 256 + low * Pow2(8 - tb) + d
    requires base + Pow2(tb) <= LUT_SIZE && 8 < len <= 8 + tb
    requires forall i :: base + low <= i < base + low + reps ==> lut[i] == Entry(len - 8, value)
    ensures Finds(lut, w, len, value, key, base + low + reps)
  {
    SubWindow(lut, w, key, base, tb, low, d, reps);
    hide SecondIndex, Pow2;
  }

  lemma AllFind(lut: Lut, sizes: seq<nat>, values: seq<nat>, p: nat, key: nat, top: nat)
    requires |lut| == LUT_SIZE && CodeLengths(sizes) && p < |sizes| <= |values|
    requires forall w: nat :: Space(sizes, p) <= w < Space(sizes, p + 1) ==> Finds(lut, w, sizes[p], values[p], key, top)
    ensures Decodes(lut, sizes, values, p, key, top)
  {
    hide Finds, Space;
  }

  lemma AddedFactor(a: int, b: int, u: int)
    ensures (a + b) * u == a * u + b * u
  {
  }
}
