/**
 The construction of the two-level lookup tables (lib/jpegli/huffman.cc): all codes are found, and the
 table never outgrows its 1024 entries.
 */
module LookupConstruction {
  import opened Arithmetic
  import opened BitStrings
  import opened HuffmanCode
  import opened HuffmanLookup

  // ---------------------------------------------------------------- the width of a second table

  /** The entries of a table of m - 8 bits that the remaining codes of lengths len .. m take. */
  function Fill(cnt: seq<nat>, len: nat, m: nat): nat
    requires m < |cnt|
  {
    if m < len || m == 0 then 0 else 2 * Fill(cnt, len, m - 1) + cnt[m]
  }

  lemma {:induction false} FillSkips(cnt: seq<nat>, len: nat, m: nat)
    requires len <= m < |cnt| && 0 < len && cnt[len] == 0
    ensures Fill(cnt, len, m) == Fill(cnt, len + 1, m)
  {
    if m > len {
      FillSkips(cnt, len, m - 1);
    }
  }

  lemma {:induction false} FillTakes(cnt: seq<nat>, len: nat, m: nat)
    requires 0 < len <= m < |cnt| && cnt[len] > 0
    ensures Fill(cnt[len := cnt[len] - 1], len, m) == Fill(cnt, len, m) - Pow2(m - len)
  {
    if m > len {
      FillTakes(cnt, len, m - 1);
    } else {
      assert Pow2(0) == 1;
      assert Fill(cnt[len := cnt[len] - 1], len, m - 1) == 0 == Fill(cnt, len, m - 1);
    }
  }

  /** The least width whose table the remaining codes fill, or else eight bits. */
  method NextTableBitSize(count: seq<nat>, len0: nat) returns (bits: nat)
    requires |count| == 17 && 9 <= len0 <= 16
    ensures len0 - 8 <= bits <= 8
    ensures bits < 8 ==> Fill(count, len0, 8 + bits) >= Pow2(bits)
    ensures len0 <= 7 + bits ==> 2 * Fill(count, len0, 7 + bits) < Pow2(bits)
  {
    var len := len0;
    var left := Pow2(len - 8);
    while len < 16
      invariant len0 <= len <= 16 && left == Pow2(len - 8) - 2 * Fill(count, len0, len - 1)
      invariant len > len0 ==> left > 0
    {
      left := left - count[len];
      if left <= 0 {
        break;
      }
      len := len + 1;
      left := left * 2;
    }
    bits := len - 8;
  }

  // ---------------------------------------------------------------- the root table

  /** The symbols before idx are done, and fill the root entries before key. */
  ghost predicate RootState(lut: Lut, lut0: Lut, sizes: seq<nat>, values: seq<nat>, idx: nat, key: nat) {
    && CodeLengths(sizes) && idx <= |sizes| <= |values| && key <= 256 && Space(sizes, idx) == 256 * key
    && Untouched(lut, lut0, key, 256) && Known(lut, sizes, values, idx, key, 256)
  }

  /** Entries from .. from + n - 1 of the table are replaced. */
  ghost predicate Written(lut: Lut, lut2: Lut, from: nat, n: nat, e: Entry) {
    && |lut| == |lut2| == LUT_SIZE && from + n <= LUT_SIZE
    && (forall i :: 0 <= i < LUT_SIZE && (i < from || from + n <= i) ==> lut2[i] == lut[i])
    && (forall i :: from <= i < from + n ==> lut2[i] == e)
  }

  lemma RootRoom(sizes: seq<nat>, idx: nat, key: nat)
    requires CodeLengths(sizes) && idx < |sizes| && sizes[idx] <= 8 && Space(sizes, idx) == 256 * key
    requires Space(sizes, |sizes|) <= 0x1_0000
    ensures key + Pow2(8 - sizes[idx]) <= 256 && Space(sizes, idx + 1) <= 0x1_0000
  {
    SpaceMono(sizes, idx + 1, |sizes|);
    SpaceNext(sizes, idx);
    RootUnits(sizes[idx]);
    hide Space, Pow2;
  }

  lemma RootStep(lut: Lut, lut2: Lut, lut0: Lut, sizes: seq<nat>, values: seq<nat>, idx: nat, key: nat)
    requires RootState(lut, lut0, sizes, values, idx, key) && idx < |sizes| && sizes[idx] <= 8
    requires Space(sizes, |sizes|) <= 0x1_0000 && Written(lut, lut2, key, Pow2(8 - sizes[idx]), Entry(sizes[idx], values[idx]))
    ensures RootState(lut2, lut0, sizes, values, idx + 1, key + Pow2(8 - sizes[idx]))
  {
    hide Decodes, Space, Pow2, CodeLengths;
    RootRoom(sizes, idx, key);
    RootRun(lut2, sizes, values, idx, key, 256);
    KnownStays(lut, lut2, sizes, values, idx, key, 256, key + Pow2(8 - sizes[idx]), 256);
  }

  /** The repeated entries of one code. */
  method FillEntries(lut: array<Entry>, from: nat, n: nat, e: Entry)
    requires lut.Length == LUT_SIZE && from + n <= LUT_SIZE
    modifies lut
    ensures Written(old(lut[..]), lut[..], from, n, e)
  {
    for j := 0 to n
      invariant forall i :: 0 <= i < LUT_SIZE && (i < from || from + j <= i) ==> lut[i] == old(lut[i])
      invariant forall i :: from <= i < from + j ==> lut[i] == e
    {
      lut[from + j] := e;
    }
  }

  lemma {:induction false} SizesPrefix(count: seq<nat>, l: nat, m: nat)
    requires l <= m < |count|
    ensures SizesUpTo(count, l) <= SizesUpTo(count, m)
  {
    if l < m {
      SizesPrefix(count, l, m - 1);
    }
  }

  /** The symbol number that is reached when r codes of length len are left. */
  lemma SizeAt(count: seq<nat>, len: nat, r: nat)
    requires |count| == 17 && 1 <= len <= 16 && r <= count[len]
    ensures var idx := |SizesUpTo(count, len - 1)| + (count[len] - r);
            && idx <= |SizesUpTo(count, 16)|
            && (r > 0 ==> idx < |SizesUpTo(count, 16)| && SizesUpTo(count, 16)[idx] == len)
            && (r == 0 ==> idx == |SizesUpTo(count, len)|)
  {
    SizesPrefix(count, len, 16);
    SizesStep(count, len);
  }

  method FillRoot(count: seq<nat>, symbols: seq<nat>, lut: array<Entry>) returns (key: nat, idx: nat)
    requires |count| == 17 && lut.Length == LUT_SIZE
    requires var sizes := SizesUpTo(count, 16); CodeLengths(sizes) && |sizes| <= |symbols| && Space(sizes, |sizes|) <= 0x1_0000
    modifies lut
    ensures RootState(lut[..], old(lut[..]), SizesUpTo(count, 16), symbols, idx, key) && idx == |SizesUpTo(count, 8)|
  {
    hide RootState, CodeLengths, Space, Pow2, SizesUpTo, Written;
    ghost var sizes, lut0 := SizesUpTo(count, 16), lut[..];
    key, idx := 0, 0;
    StartRoot(lut0, count, symbols);
    for len := 1 to 9
      invariant RootState(lut[..], lut0, sizes, symbols, idx, key) && idx == |SizesUpTo(count, len - 1)|
    {
      var left := count[len];
      while left > 0
        invariant left <= count[len] && idx == |SizesUpTo(count, len - 1)| + (count[len] - left)
        invariant RootState(lut[..], lut0, sizes, symbols, idx, key)
      {
        SizeAt(count, len, left);
        RootIndex(lut[..], lut0, sizes, symbols, idx, key);
        RootRoom(sizes, idx, key);
        var reps := Pow2(8 - len);
        ghost var before := lut[..];
        FillEntries(lut, key, reps, Entry(len, symbols[idx]));
        RootStep(before, lut[..], lut0, sizes, symbols, idx, key);
        key, idx, left := key + reps, idx + 1, left - 1;
      }
      SizeAt(count, len, 0);
    }
  }

  lemma StartRoot(lut0: Lut, count: seq<nat>, symbols: seq<nat>)
    requires |lut0| == LUT_SIZE && |count| == 17 && CodeLengths(SizesUpTo(count, 16)) && |SizesUpTo(count, 16)| <= |symbols|
    ensures RootState(lut0, lut0, SizesUpTo(count, 16), symbols, 0, 0) && |SizesUpTo(count, 0)| == 0
  {
  }

  lemma RootIndex(lut: Lut, lut0: Lut, sizes: seq<nat>, values: seq<nat>, idx: nat, key: nat)
    requires RootState(lut, lut0, sizes, values, idx, key)
    ensures CodeLengths(sizes) && idx <= |sizes| <= |values| && key <= 256 && Space(sizes, idx) == 256 * key
  {
  }

  // ---------------------------------------------------------------- the second tables

  /** The second table that is being filled: its place, its width and size, and the entries in use. Its first
      code, of 8 + a bits, belongs to symbol start. */
  datatype Table = Table(base: nat, bits: nat, size: nat, low: nat, start: nat, a: nat)

  /** How the code space in use shows in the root table and the current second table. */
  ghost predicate SubShape(lut: Lut, sizes: seq<nat>, idx: nat, key: nat, t: Table) {
    && CodeLengths(sizes) && idx <= |sizes| && |lut| == LUT_SIZE && key <= 256 <= t.base
    && t.low <= t.size && t.base + t.size <= LUT_SIZE
    && (t.size == 0 ==> t.base == 256 && Space(sizes, idx) == 256 * key)
    && (t.size > 0 ==> (
          && 1 <= t.bits <= 8 && 1 <= key && t.size == Pow2(t.bits)
          && lut[key - 1] == Entry(t.bits + 8, t.base - (key - 1))
          && Space(sizes, idx) == (key - 1) * 256 + t.low * Pow2(8 - t.bits)))
  }

  ghost predicate SubState(lut: Lut, lut0: Lut, sizes: seq<nat>, values: seq<nat>, idx: nat, key: nat, t: Table) {
    && SubShape(lut, sizes, idx, key, t) && |sizes| <= |values|
    && Untouched(lut, lut0, key, t.base + t.low) && Known(lut, sizes, values, idx, key, t.base + t.low)
  }

  /** The room that all tables so far take, by the number of symbols in them. */
  ghost predicate Budget(t: Table, idx: nat, roots: nat) {
    && roots <= idx
    && (t.size > 0 ==> (
          && 1 <= t.a <= t.bits && roots <= t.start <= idx
          && t.base - 254 <= t.start - roots + Pow2(t.a) && t.low <= (idx - t.start) * Pow2(t.bits - t.a)))
  }

  /** The remaining codes fill the current table, and those short of its full width do not. */
  ghost predicate Supply(cnt: seq<nat>, len: nat, t: Table) {
    && |cnt| == 17
    && (t.size > 0 ==> 1 <= t.bits <= 8 && 8 + t.a <= len)
    && (t.size > 0 && t.low < t.size && t.bits < 8 ==> Fill(cnt, len, 8 + t.bits) >= t.size - t.low)
    && (t.size > 0 && len <= 7 + t.bits ==> 2 * Fill(cnt, len, 7 + t.bits) < t.size - t.low)
  }

  /** A full table ends where the next root entry begins. */
  lemma FullTable(lut: Lut, sizes: seq<nat>, idx: nat, key: nat, t: Table)
    requires SubShape(lut, sizes, idx, key, t) && t.low == t.size
    ensures Space(sizes, idx) == 256 * key
  {
    if t.size > 0 {
      SubUnits(8 + t.bits, t.bits);
    }
  }

  /** There is a root entry left for the next table. */
  lemma RootEntryLeft(lut: Lut, sizes: seq<nat>, idx: nat, key: nat, t: Table)
    requires SubShape(lut, sizes, idx, key, t) && t.low == t.size
    requires idx < |sizes| && Space(sizes, |sizes|) <= 0x1_0000
    ensures key < 256 && Space(sizes, idx) == 256 * key
  {
    FullTable(lut, sizes, idx, key, t);
    SpaceMono(sizes, idx, |sizes|);
  }

  /** A full table holds at least as many symbols as its first code has bits for. */
  lemma FullTableSymbols(n: nat, a: nat, bits: nat)
    requires a <= bits && Pow2(bits) <= n * Pow2(bits - a)
    ensures Pow2(a) <= n
  {
    Pow2Sum(a, bits - a);
    MulBounds(n - Pow2(a), Pow2(bits - a));
    assert (n - Pow2(a)) * Pow2(bits - a) == n * Pow2(bits - a) - Pow2(a) * Pow2(bits - a);
  }

  /** The next table fits into the room of 1024 entries, with two to spare. */
  lemma NextTableFits(sizes: seq<nat>, cnt: seq<nat>, len: nat, idx: nat, roots: nat, t: Table, tb: nat)
    requires Budget(t, idx, roots) && Supply(cnt, len, t) && t.low == t.size && 9 <= len <= 8 + tb && tb <= 8
    requires idx <= 256
    requires t.size > 0 ==> t.size == Pow2(t.bits)
    requires t.size == 0 ==> t.base == 256
    ensures t.base + t.size - 254 <= idx - roots + Pow2(len - 8)
    ensures t.base + t.size + Pow2(tb) <= LUT_SIZE - 2
  {
    Pow2Of8();
    Pow2Mono(len - 8, 8);
    Pow2Mono(tb, 8);
    if t.size > 0 {
      FullTableSymbols(idx - t.start, t.a, t.bits);
      assert len >= 8 + t.bits;
      Pow2Mono(t.bits, len - 8);
    }
  }

  /** A root entry leads to a new second table. */
  lemma OpenTable(lut: Lut, lut2: Lut, lut0: Lut, sizes: seq<nat>, values: seq<nat>, idx: nat, key: nat, t: Table, t2: Table)
    requires SubState(lut, lut0, sizes, values, idx, key, t) && t.low == t.size
    requires idx < |sizes| && Space(sizes, |sizes|) <= 0x1_0000
    requires t2.base == t.base + t.size && 1 <= t2.bits <= 8 && t2.size == Pow2(t2.bits) && t2.low == 0
    requires t2.base + t2.size <= LUT_SIZE && key < 256
    requires Written(lut, lut2, key, 1, Entry(t2.bits + 8, t2.base - key))
    ensures SubState(lut2, lut0, sizes, values, idx, key + 1, t2)
  {
    RootEntryLeft(lut, sizes, idx, key, t);
    KnownStays(lut, lut2, sizes, values, idx, key, t2.base, key + 1, t2.base);
    hide Known, Space, Pow2, CodeLengths;
  }

  lemma OpenSupply(cnt: seq<nat>, len: nat, roots: nat, idx: nat, t: Table, t2: Table)
    requires Budget(t, idx, roots) && Supply(cnt, len, t) && t.low == t.size && 9 <= len <= 8 + t2.bits <= 16
    requires t.base + t.size - 254 <= idx - roots + Pow2(len - 8)
    requires t2 == Table(t.base + t.size, t2.bits, Pow2(t2.bits), 0, idx, len - 8)
    requires t2.bits < 8 ==> Fill(cnt, len, 8 + t2.bits) >= Pow2(t2.bits)
    requires len <= 7 + t2.bits ==> 2 * Fill(cnt, len, 7 + t2.bits) < Pow2(t2.bits)
    ensures Budget(t2, idx, roots) && Supply(cnt, len, t2)
  {
  }

  lemma Regrouped(a: int, b: int, c: int)
    ensures a * (b * c) == (a * b) * c
  {
  }

  lemma SameFactor(a: int, b: int, u: nat)
    requires u > 0 && a * u == b * u
    ensures a == b
  {
    MulBounds(a - b, u);
    assert (a - b) * u == 0;
  }

  /** A table that is not full has room for all entries of the next code. */
  lemma AlignedRoom(size: nat, low: nat, r: nat, q: nat, d: int)
    requires low < size == r * q && low == r * d
    ensures low + r <= size
  {
    Unscaled(r, d, q);
    Arithmetic.Scaled(r, d + 1, q);
  }

  lemma CommonUnit(k: int, size: int, low: int, u: nat, c: int, r: int)
    requires u > 0 && k * (size * u) + low * u == c * (r * u)
    ensures k * size + low == c * r
  {
    Regrouped(k, size, u);
    Regrouped(c, r, u);
    AddedFactor(k * size, low, u);
    SameFactor(k * size + low, c * r, u);
  }

  lemma MultipleOf(k: int, q: int, r: int, low: int, c: int)
    requires k * (r * q) + low == c * r
    ensures low == r * (c - k * q)
  {
    Spread(r, c, k * q);
    assert r * (k * q) == k * (r * q);
  }

  lemma CodeHasRoom(lut: Lut, sizes: seq<nat>, idx: nat, key: nat, t: Table)
    requires SubShape(lut, sizes, idx, key, t) && t.low < t.size && idx < |sizes| && 8 < sizes[idx] <= 8 + t.bits
    ensures t.low + Pow2(8 + t.bits - sizes[idx]) <= t.size
  {
    var len, tb := sizes[idx], t.bits;
    var u, r, q, c := Pow2(8 - tb), Pow2(8 + tb - len), Pow2(len - 8), CodeAt(sizes, idx);
    CodeIsSpace(sizes, idx);
    SubUnits(len, tb);
    Pow2Sum(8 + tb - len, len - 8);
    assert (key - 1) * (t.size * u) + t.low * u == c * (r * u) && t.size == r * q;
    hide *;
    CommonUnit(key - 1, t.size, t.low, u, c, r);
    MultipleOf(key - 1, q, r, t.low, c);
    AlignedRoom(t.size, t.low, r, q, c - (key - 1) * q);
  }

  /** The remaining codes include one that is short enough for the current table: the next one. */
  lemma {:induction false} NextIsShort(cnt: seq<nat>, len: nat, m: nat)
    requires m < |cnt| && Fill(cnt, len, m) > 0
    ensures len <= m
  {
  }

  lemma PlaceCode(lut: Lut, lut2: Lut, lut0: Lut, sizes: seq<nat>, values: seq<nat>, idx: nat, key: nat, t: Table, reps: nat)
    requires SubState(lut, lut0, sizes, values, idx, key, t) && t.low < t.size && idx < |sizes| && 8 < sizes[idx] <= 8 + t.bits
    requires reps == Pow2(8 + t.bits - sizes[idx]) && t.low + reps <= t.size
    requires Written(lut, lut2, t.base + t.low, reps, Entry(sizes[idx] - 8, values[idx]))
    ensures SubState(lut2, lut0, sizes, values, idx + 1, key, t.(low := t.low + reps))
  {
    hide Decodes, Space, Pow2, CodeLengths;
    SubRun(lut2, sizes, values, idx, key, t.base, t.bits, t.low);
    KnownStays(lut, lut2, sizes, values, idx, key, t.base + t.low, key, t.base + t.low + reps);
  }

  lemma PlaceBudget(t: Table, idx: nat, roots: nat, len: nat, reps: nat)
    requires Budget(t, idx, roots) && t.size > 0 && 8 + t.a <= len <= 8 + t.bits && reps == Pow2(8 + t.bits - len)
    ensures Budget(t.(low := t.low + reps), idx + 1, roots)
  {
    Pow2Mono(8 + t.bits - len, t.bits - t.a);
    AddedFactor(idx - t.start, 1, Pow2(t.bits - t.a));
  }

  lemma PlaceSupply(cnt: seq<nat>, len: nat, t: Table, reps: nat)
    requires Supply(cnt, len, t) && t.size > 0 && 8 < len <= 8 + t.bits && len <= 16 && cnt[len] > 0
    requires reps == Pow2(8 + t.bits - len)
    ensures Supply(cnt[len := cnt[len] - 1], len, t.(low := t.low + reps))
  {
    FillTakes(cnt, len, 8 + t.bits);
    if len <= 7 + t.bits {
      FillTakes(cnt, len, 7 + t.bits);
    }
  }

  lemma NextLength(cnt: seq<nat>, len: nat, t: Table)
    requires Supply(cnt, len, t) && 9 <= len <= 16 && cnt[len] == 0
    ensures Supply(cnt, len + 1, t)
  {
    if t.size > 0 {
      FillSame(cnt, len, 8 + t.bits);
      FillSame(cnt, len, 7 + t.bits);
    }
  }

  lemma FillSame(cnt: seq<nat>, len: nat, m: nat)
    requires 0 < len && m < |cnt| && (len < |cnt| ==> cnt[len] == 0)
    ensures Fill(cnt, len, m) == Fill(cnt, len + 1, m)
  {
    if len <= m {
      FillSkips(cnt, len, m);
    }
  }

  // ---------------------------------------------------------------- the construction

  /** What the loop over the longer codes keeps. */
  ghost predicate Progress(lut: Lut, lut0: Lut, count: seq<nat>, cnt: seq<nat>, symbols: seq<nat>, len: nat, idx: nat, key: nat,
                           t: Table, roots: nat) {
    && |count| == 17 && SubState(lut, lut0, SizesUpTo(count, 16), symbols, idx, key, t)
    && Budget(t, idx, roots) && Supply(cnt, len, t)
  }

  lemma StartSecond(lut: Lut, lut0: Lut, count: seq<nat>, symbols: seq<nat>, idx: nat, key: nat)
    requires |count| == 17 && RootState(lut, lut0, SizesUpTo(count, 16), symbols, idx, key)
    ensures Progress(lut, lut0, count, count, symbols, 9, idx, key, Table(256, 8, 0, 0, 0, 0), idx)
  {
    hide Space, SizesUpTo, CodeLengths, Known;
  }

  lemma CanOpen(lut: Lut, lut0: Lut, count: seq<nat>, cnt: seq<nat>, symbols: seq<nat>, len: nat, idx: nat, key: nat,
                t: Table, roots: nat, tb: nat)
    requires Progress(lut, lut0, count, cnt, symbols, len, idx, key, t, roots) && t.low >= t.size && 9 <= len <= 8 + tb <= 16
    requires var sizes := SizesUpTo(count, 16); idx < |sizes| <= 257 && CodeLengths(sizes) && Space(sizes, |sizes|) <= 0x1_0000
    ensures key < 256 <= t.base + t.size && t.base + t.size + Pow2(tb) <= LUT_SIZE && t.low == t.size
    ensures t.base + t.size - 254 <= idx - roots + Pow2(len - 8)
  {
    RootEntryLeft(lut, SizesUpTo(count, 16), idx, key, t);
    NextTableFits(SizesUpTo(count, 16), cnt, len, idx, roots, t, tb);
  }

  lemma Opened(lut: Lut, lut2: Lut, lut0: Lut, count: seq<nat>, cnt: seq<nat>, symbols: seq<nat>, len: nat, idx: nat, key: nat,
               t: Table, roots: nat, t2: Table)
    requires Progress(lut, lut0, count, cnt, symbols, len, idx, key, t, roots) && t.low >= t.size && 9 <= len <= 8 + t2.bits <= 16
    requires var sizes := SizesUpTo(count, 16); idx < |sizes| <= 257 && CodeLengths(sizes) && Space(sizes, |sizes|) <= 0x1_0000
    requires t2 == Table(t.base + t.size, t2.bits, Pow2(t2.bits), 0, idx, len - 8)
    requires t2.bits < 8 ==> Fill(cnt, len, 8 + t2.bits) >= Pow2(t2.bits)
    requires len <= 7 + t2.bits ==> 2 * Fill(cnt, len, 7 + t2.bits) < Pow2(t2.bits)
    requires t2.base >= key && Written(lut, lut2, key, 1, Entry(t2.bits + 8, t2.base - key))
    ensures Progress(lut2, lut0, count, cnt, symbols, len, idx, key + 1, t2, roots)
  {
    hide SubState, Budget, Supply, Written, Space, Pow2, Fill, CodeLengths, SizesUpTo;
    CanOpen(lut, lut0, count, cnt, symbols, len, idx, key, t, roots, t2.bits);
    OpenTable(lut, lut2, lut0, SizesUpTo(count, 16), symbols, idx, key, t, t2);
    OpenSupply(cnt, len, roots, idx, t, t2);
  }

  lemma CanPlace(lut: Lut, lut0: Lut, count: seq<nat>, cnt: seq<nat>, symbols: seq<nat>, len: nat, idx: nat, key: nat,
                 t: Table, roots: nat)
    requires Progress(lut, lut0, count, cnt, symbols, len, idx, key, t, roots) && t.low < t.size && 9 <= len <= 16
    requires idx < |SizesUpTo(count, 16)| && SizesUpTo(count, 16)[idx] == len
    ensures 8 + t.a <= len <= 8 + t.bits && t.low + Pow2(8 + t.bits - len) <= t.size && t.base + t.size <= LUT_SIZE
    ensures idx < |symbols|
  {
    if t.bits < 8 {
      NextIsShort(cnt, len, 8 + t.bits);
    }
    CodeHasRoom(lut, SizesUpTo(count, 16), idx, key, t);
  }

  lemma Placed(lut: Lut, lut2: Lut, lut0: Lut, count: seq<nat>, cnt: seq<nat>, symbols: seq<nat>, len: nat, idx: nat, key: nat,
               t: Table, roots: nat, reps: nat)
    requires Progress(lut, lut0, count, cnt, symbols, len, idx, key, t, roots) && t.low < t.size && 9 <= len <= 16
    requires idx < |SizesUpTo(count, 16)| && SizesUpTo(count, 16)[idx] == len && |cnt| == 17 && cnt[len] > 0 && idx < |symbols|
    requires len <= 8 + t.bits && reps == Pow2(8 + t.bits - len)
    requires Written(lut, lut2, t.base + t.low, reps, Entry(len - 8, symbols[idx]))
    ensures Progress(lut2, lut0, count, cnt[len := cnt[len] - 1], symbols, len, idx + 1, key, t.(low := t.low + reps), roots)
  {
    hide SubState, Budget, Supply, Written, Space, Pow2, Fill, SizesUpTo;
    CanPlace(lut, lut0, count, cnt, symbols, len, idx, key, t, roots);
    PlaceCode(lut, lut2, lut0, SizesUpTo(count, 16), symbols, idx, key, t, reps);
    PlaceBudget(t, idx, roots, len, reps);
    PlaceSupply(cnt, len, t, reps);
  }

  /** A new second table: its width, and the root entry that leads to it. */
  method OpenSecond(count: seq<nat>, cnt: seq<nat>, symbols: seq<nat>, len: nat, lut: array<Entry>, key: nat, base: nat,
                    ghost idx: nat, ghost t: Table, ghost roots: nat, ghost lut0: Lut) returns (bits: nat, ghost t2: Table)
    requires |count| == 17 && |cnt| == 17 && lut.Length == LUT_SIZE && 9 <= len <= 16
    requires var sizes := SizesUpTo(count, 16); idx < |sizes| <= 257 && CodeLengths(sizes) && Space(sizes, |sizes|) <= 0x1_0000
    requires Progress(lut[..], lut0, count, cnt, symbols, len, idx, key, t, roots) && t.low >= t.size && base == t.base + t.size
    modifies lut
    ensures Progress(lut[..], lut0, count, cnt, symbols, len, idx, key + 1, t2, roots)
    ensures t2 == Table(base, bits, Pow2(bits), 0, idx, len - 8)
  {
    hide *;
    ghost var before := lut[..];
    bits := NextTableBitSize(cnt, len);
    CanOpen(before, lut0, count, cnt, symbols, len, idx, key, t, roots, bits);
    t2 := Table(base, bits, Pow2(bits), 0, idx, len - 8);
    lut[key] := Entry(bits + 8, base - key);
    WrittenOne(before, lut[..], key, Entry(bits + 8, base - key));
    Opened(before, lut[..], lut0, count, cnt, symbols, len, idx, key, t, roots, t2);
  }

  method FillSecond(count: seq<nat>, symbols: seq<nat>, lut: array<Entry>, key0: nat, idx0: nat, ghost lut0: Lut)
      returns (key: nat, ghost t: Table)
    requires |count| == 17 && lut.Length == LUT_SIZE
    requires var sizes := SizesUpTo(count, 16); CodeLengths(sizes) && |sizes| <= 257 && Space(sizes, |sizes|) <= 0x1_0000
    requires RootState(lut[..], lut0, SizesUpTo(count, 16), symbols, idx0, key0) && idx0 == |SizesUpTo(count, 8)|
    modifies lut
    ensures SubState(lut[..], lut0, SizesUpTo(count, 16), symbols, |SizesUpTo(count, 16)|, key, t)
  {
    hide *;
    var idx := idx0;
    key := key0;
    var base: nat, bits: nat, size: nat, low: nat := 256, 8, 0, 0;
    var cnt := count;
    t := Table(base, bits, size, low, 0, 0);
    StartSecond(lut[..], lut0, count, symbols, idx, key);
    for len := 9 to 17
      invariant |cnt| == 17 && idx == |SizesUpTo(count, len - 1)| && forall l :: len <= l < 17 ==> cnt[l] == count[l]
      invariant t == Table(base, bits, size, low, t.start, t.a)
      invariant Progress(lut[..], lut0, count, cnt, symbols, len, idx, key, t, idx0)
    {
      while cnt[len] > 0
        invariant |cnt| == 17 && cnt[len] <= count[len] && forall l :: len < l < 17 ==> cnt[l] == count[l]
        invariant idx == |SizesUpTo(count, len - 1)| + (count[len] - cnt[len])
        invariant t == Table(base, bits, size, low, t.start, t.a)
        invariant Progress(lut[..], lut0, count, cnt, symbols, len, idx, key, t, idx0)
        decreases cnt[len]
      {
        SizeAt(count, len, cnt[len]);
        if low >= size {
          base := base + size;
          bits, t := OpenSecond(count, cnt, symbols, len, lut, key, base, idx, t, idx0, lut0);
          size, low, key := Pow2(bits), 0, key + 1;
        }
        CanPlace(lut[..], lut0, count, cnt, symbols, len, idx, key, t, idx0);
        var reps := Pow2(8 + bits - len);
        ghost var before := lut[..];
        FillEntries(lut, base + low, reps, Entry(len - 8, symbols[idx]));
        Placed(before, lut[..], lut0, count, cnt, symbols, len, idx, key, t, idx0, reps);
        t := t.(low := low + reps);
        low, idx := low + reps, idx + 1;
        cnt := cnt[len := cnt[len] - 1];
      }
      SizeAt(count, len, 0);
      NextStep(lut[..], lut0, count, cnt, symbols, len, idx, key, t, idx0);
    }
    Finished(lut[..], lut0, count, cnt, symbols, 17, idx, key, t, idx0);
  }

  lemma WrittenOne(lut: Lut, lut2: Lut, from: nat, e: Entry)
    requires |lut| == LUT_SIZE && from < LUT_SIZE && lut2 == lut[from := e]
    ensures Written(lut, lut2, from, 1, e)
  {
  }

  lemma NextStep(lut: Lut, lut0: Lut, count: seq<nat>, cnt: seq<nat>, symbols: seq<nat>, len: nat, idx: nat, key: nat,
                 t: Table, roots: nat)
    requires Progress(lut, lut0, count, cnt, symbols, len, idx, key, t, roots) && 9 <= len <= 16 && |cnt| == 17 && cnt[len] == 0
    ensures Progress(lut, lut0, count, cnt, symbols, len + 1, idx, key, t, roots)
  {
    NextLength(cnt, len, t);
  }

  lemma Finished(lut: Lut, lut0: Lut, count: seq<nat>, cnt: seq<nat>, symbols: seq<nat>, len: nat, idx: nat, key: nat,
                 t: Table, roots: nat)
    requires Progress(lut, lut0, count, cnt, symbols, len, idx, key, t, roots)
    ensures SubState(lut, lut0, SizesUpTo(count, 16), symbols, idx, key, t)
  {
  }
}
