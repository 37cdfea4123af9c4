/**
 The lookup table of an accepted Huffman table (lib/jpegli/decode.cc, lib/jpegli/huffman.cc): for every
 window of 16 bits it finds the symbol that the code words define, or an invalid one if there is none.
 */
module SymbolLookup {
  import opened Arithmetic
  import opened BitStrings
  import opened HuffmanCode
  import opened BlockDecoding
  import opened HuffmanLookup
  import opened LookupConstruction

  /** The value of entries that no code has written. */
  const UNUSED: nat := 0xffff

  ghost predicate Blank(lut: Lut) {
    |lut| == LUT_SIZE && forall i :: 0 <= i < LUT_SIZE ==> lut[i] == Entry(0, UNUSED)
  }

  /** The lookup stays inside the table and ends at an entry that no code has written. */
  ghost predicate FindsNone(lut: Lut, w: nat)
    requires |lut| == LUT_SIZE && w < 0x1_0000
  {
    Covered(lut, w, 256, LUT_SIZE) && Lookup(lut, w).0 <= 16 && Lookup(lut, w).1 == UNUSED
  }

  // ---------------------------------------------------------------- windows without a code

  lemma QuotientFrom(x: nat, low: nat, size: nat, u: nat)
    requires u > 0 && low * u <= x < size * u
    ensures low <= x / u < size
  {
    Spread(u, size, low);
    assert (size - low) * u == size * u - low * u;
    if size <= low {
      Arithmetic.Scaled(u, size, low);
      assert false;
    }
    DivideIn(low, u, x - low * u, size - low);
  }

  /** The window leads to an unused part of the current second table. */
  lemma UnusedEntry(lut: Lut, w: nat, key: nat, t: Table)
    requires |lut| == LUT_SIZE && w < 0x1_0000 && 1 <= t.bits <= 8 && w / 256 == key - 1
    requires key <= 256 <= t.base && lut[key - 1] == Entry(t.bits + 8, t.base - (key - 1))
    requires t.size == Pow2(t.bits) && t.base + t.size <= LUT_SIZE && (key - 1) * 256 + t.low * Pow2(8 - t.bits) <= w
    requires forall i :: t.base + t.low <= i < LUT_SIZE ==> lut[i] == Entry(0, UNUSED)
    ensures FindsNone(lut, w)
  {
    SubUnits(8 + t.bits, t.bits);
    hide Pow2;
    QuotientFrom(w % 256, t.low, t.size, Pow2(8 - t.bits));
  }

  lemma UnusedRoot(lut: Lut, w: nat)
    requires |lut| == LUT_SIZE && w < 0x1_0000 && lut[w / 256] == Entry(0, UNUSED)
    ensures FindsNone(lut, w)
  {
  }

  lemma UnusedRest(lut: Lut, lut0: Lut, key: nat, top: nat)
    requires Untouched(lut, lut0, key, top) && Blank(lut0) && 256 <= top
    ensures |lut| == LUT_SIZE && forall i :: key <= i < 256 || top <= i < LUT_SIZE ==> lut[i] == Entry(0, UNUSED)
  {
  }

  lemma BeyondCodes(lut: Lut, lut0: Lut, sizes: seq<nat>, values: seq<nat>, key: nat, t: Table, w: nat)
    requires SubState(lut, lut0, sizes, values, |sizes|, key, t) && Blank(lut0)
    requires Space(sizes, |sizes|) <= w < 0x1_0000
    ensures FindsNone(lut, w)
  {
    hide Known, Space, Pow2, SecondIndex, CodeLengths, FindsNone, Blank, Untouched;
    UnusedRest(lut, lut0, key, t.base + t.low);
    if t.size > 0 && w / 256 < key {
      UnusedEntry(lut, w, key, t);
    } else {
      UnusedRoot(lut, w);
    }
  }

  lemma AllBeyond(lut: Lut, lut0: Lut, sizes: seq<nat>, values: seq<nat>, key: nat, t: Table)
    requires SubState(lut, lut0, sizes, values, |sizes|, key, t) && Blank(lut0)
    ensures forall w: nat :: Space(sizes, |sizes|) <= w < 0x1_0000 ==> FindsNone(lut, w)
  {
    forall w: nat | Space(sizes, |sizes|) <= w < 0x1_0000
      ensures FindsNone(lut, w)
    {
      BeyondCodes(lut, lut0, sizes, values, key, t, w);
    }
  }

  // ---------------------------------------------------------------- the table for counts and symbols

  /** Every code is found, and no window past the codes finds a symbol if the table was blank. */
  ghost predicate Built(lut: Lut, lut0: Lut, sizes: seq<nat>, symbols: seq<nat>) {
    && Known(lut, sizes, symbols, |sizes|, 256, LUT_SIZE)
    && CodeLengths(sizes)
    && |lut| == LUT_SIZE
    && (Blank(lut0) ==> forall w: nat :: Space(sizes, |sizes|) <= w < 0x1_0000 ==> FindsNone(lut, w))
  }

  lemma AllBuilt(lut: Lut, lut0: Lut, sizes: seq<nat>, symbols: seq<nat>, key: nat, t: Table)
    requires SubState(lut, lut0, sizes, symbols, |sizes|, key, t)
    ensures Built(lut, lut0, sizes, symbols)
  {
    KnownStays(lut, lut, sizes, symbols, |sizes|, key, t.base + t.low, 256, LUT_SIZE);
    if Blank(lut0) {
      AllBeyond(lut, lut0, sizes, symbols, key, t);
    }
  }

  /** The table for the given number of codes of each length; a single code is given no bits at all. */
  method BuildJpegHuffmanTable(count: seq<nat>, symbols: seq<nat>, lut: array<Entry>)
    requires |count| == 17 && lut.Length == LUT_SIZE
    requires var sizes := SizesUpTo(count, 16);
      CodeLengths(sizes) && |sizes| <= 257 && |sizes| <= |symbols| && Space(sizes, |sizes|) <= 0x1_0000
    modifies lut
    ensures |SizesUpTo(count, 16)| == 1 ==> Written(old(lut[..]), lut[..], 0, 256, Entry(0, symbols[0]))
    ensures |SizesUpTo(count, 16)| != 1 ==> Built(lut[..], old(lut[..]), SizesUpTo(count, 16), symbols)
  {
    hide CodeLengths, Space, SizesUpTo, Written, RootState, SubState, Built;
    ghost var lut0 := lut[..];
    var totalCount := 0;
    NoSizes(count);
    for len := 1 to 17
      invariant totalCount == |SizesUpTo(count, len - 1)| && lut[..] == lut0
    {
      SizesStep(count, len);
      totalCount := totalCount + count[len];
    }
    if totalCount == 1 {
      FillEntries(lut, 0, 256, Entry(0, symbols[0]));
      return;
    }
    var key, idx := FillRoot(count, symbols, lut);
    ghost var t;
    key, t := FillSecond(count, symbols, lut, key, idx, lut0);
    AllBuilt(lut[..], lut0, SizesUpTo(count, 16), symbols, key, t);
  }

  lemma NoSizes(count: seq<nat>)
    requires count != []
    ensures SizesUpTo(count, 0) == []
  {
  }

  // ---------------------------------------------------------------- the symbol for the all-ones word

  lemma {:induction false} SizesOfCounts(a: seq<nat>, b: seq<nat>, l: nat)
    requires l < |a| == |b| && forall k :: 1 <= k <= l ==> a[k] == b[k]
    ensures SizesUpTo(a, l) == SizesUpTo(b, l)
  {
    if l > 0 {
      SizesOfCounts(a, b, l - 1);
    }
  }

  lemma {:induction false} NoLongerCodes(bits: seq<nat>, l: nat)
    requires l < |bits|
    ensures forall k :: MaxDepth(bits, l) < k <= l ==> bits[k] == 0
  {
    if l > 0 {
      NoLongerCodes(bits, l - 1);
    }
  }

  lemma {:induction false} SizesWithOneMore(bits: seq<nat>, counts: seq<nat>, d: nat, l: nat)
    requires 1 <= d <= l < |bits| == |counts| && counts == bits[0 := 0][d := bits[d] + 1]
    requires forall k :: d < k <= l ==> bits[k] == 0
    ensures SizesUpTo(counts, l) == SizesUpTo(bits, l) + [d]
  {
    if l == d {
      SizesOfCounts(bits, counts, d - 1);
      assert Repeated(d, counts[d]) == Repeated(d, bits[d]) + [d];
    } else {
      SizesWithOneMore(bits, counts, d, l - 1);
      assert Repeated(l, 0) == [];
    }
  }

  /** The lengths with the additional symbol, and the space they use. */
  lemma SizesWithSentinel(t: HuffmanTable, counts: seq<nat>)
    requires Valid(t) && counts == t.bits[0 := 0][MaxDepth(t.bits, 16) := t.bits[MaxDepth(t.bits, 16)] + 1]
    ensures SizesUpTo(counts, 16) == t.Sizes() + [MaxDepth(t.bits, 16)] && t.Total() <= 256
  {
    NoLongerCodes(t.bits, 16);
    SizesWithOneMore(t.bits, counts, MaxDepth(t.bits, 16), 16);
    ValidTablesAreSmall(t);
  }

  lemma SpaceWithOneMore(sizes: seq<nat>, d: nat)
    requires CodeLengths(sizes) && CodeLengths(sizes + [d])
    ensures 1 <= d <= 16
    ensures Space(sizes + [d], |sizes| + 1) == Space(sizes, |sizes|) + Pow2(16 - d)
    ensures forall p :: 0 <= p <= |sizes| ==> Space(sizes + [d], p) == Space(sizes, p)
  {
    LastLength(sizes, d);
    hide *;
    var s := sizes + [d];
    assert s[|sizes|] == d;
    SpaceNext(s, |sizes|);
    SamePrefixSpace(sizes, d);
    assert Space(s, |sizes|) == Space(sizes, |sizes|);
  }

  lemma LastLength(sizes: seq<nat>, d: nat)
    requires CodeLengths(sizes + [d])
    ensures 1 <= d <= 16
  {
    assert (sizes + [d])[|sizes|] == d;
  }

  lemma SamePrefixSpace(sizes: seq<nat>, d: nat)
    requires CodeLengths(sizes) && CodeLengths(sizes + [d])
    ensures forall p :: 0 <= p <= |sizes| ==> Space(sizes + [d], p) == Space(sizes, p)
  {
    hide *;
    var s := sizes + [d];
    assert s[..|sizes|] == sizes;
    forall p: nat | p <= |sizes|
      ensures Space(s, p) == Space(sizes, p)
    {
      SpaceOfPrefix(s, |sizes|, p);
    }
  }

  /** What the acceptance of a table gives its construction. */
  lemma AcceptedFits(t: HuffmanTable, counts: seq<nat>, space: int)
    requires Valid(t) && counts == t.bits[0 := 0][MaxDepth(t.bits, 16) := t.bits[MaxDepth(t.bits, 16)] + 1]
    requires space == Pow2(16) - Space(t.Sizes(), t.Total()) - Pow2(16 - MaxDepth(t.bits, 16))
    ensures var s := SizesUpTo(counts, 16);
      && CodeLengths(s) && |s| == t.Total() + 1 <= 257 && s[..t.Total()] == t.Sizes()
      && (forall p :: 0 <= p <= t.Total() ==> Space(s, p) == Space(t.Sizes(), p))
      && Space(s, |s|) == 0x1_0000 - space && 0 <= space
  {
    SizesWithSentinel(t, counts);
    SizesAreLengths(counts, 16);
    SentinelSpace(t);
    Pow2Of16();
    hide Pow2, SizesUpTo, CodeLengths, Space, MaxDepth;
    SpaceWithOneMore(t.Sizes(), MaxDepth(t.bits, 16));
  }

  // ---------------------------------------------------------------- windows and code words

  lemma QuotientIs(w: nat, u: nat, c: nat)
    requires u > 0
    ensures w / u == c <==> c * u <= w < c * u + u
  {
    QuotientAndRest(u, w);
    if c * u <= w < c * u + u {
      DivModUnique(w, u, c, w - c * u);
    }
  }

  lemma PrefixOfWindow(c: nat, len: nat, w: nat, rest: Bits)
    requires len <= 16 && c < Pow2(len) && w < 0x1_0000
    ensures Low(c, len) <= Low(w, 16) + rest <==> w / Pow2(16 - len) == c
  {
    var q := w / Pow2(16 - len);
    LowSplit(w, len, 16 - len);
    Pow2Sum(len, 16 - len);
    Pow2Of16();
    QuotientBound(w, Pow2(16 - len), Pow2(len));
    hide *;
    assert (Low(w, 16) + rest)[..len] == Low(q, len);
    if Low(c, len) <= Low(w, 16) + rest {
      assert Low(c, len) == (Low(w, 16) + rest)[..len];
      LowInjective(c, q, len);
    }
  }

  /** A code word starts exactly the windows in its part of the code space. */
  lemma WordOfWindow(sizes: seq<nat>, p: nat, w: nat, rest: Bits)
    requires CodeLengths(sizes) && p < |sizes| && Fits(sizes) && w < 0x1_0000
    ensures Word(sizes, p) <= Low(w, 16) + rest <==> Space(sizes, p) <= w < Space(sizes, p + 1)
  {
    CodeIsSpace(sizes, p);
    CodeFits(sizes, p);
    SpaceNext(sizes, p);
    hide Pow2, Low, Space, CodeAt, Fits;
    PrefixOfWindow(CodeAt(sizes, p), sizes[p], w, rest);
    QuotientIs(w, Pow2(16 - sizes[p]), CodeAt(sizes, p));
  }

  /** The symbol whose part of the code space holds the window. */
  lemma {:induction false} Owner(sizes: seq<nat>, w: nat, n: nat) returns (p: nat)
    requires CodeLengths(sizes) && n <= |sizes| && w < Space(sizes, n)
    ensures p < n && Space(sizes, p) <= w < Space(sizes, p + 1)
  {
    if w < Space(sizes, n - 1) {
      p := Owner(sizes, w, n - 1);
    } else {
      p := n - 1;
    }
  }

  /** One lookup for the next 16 bits against the definition of the code; it stays inside the table. */
  ghost predicate Agrees(t: HuffmanTable, lut: Lut, w: nat, rest: Bits)
    requires Valid(t) && |lut| == LUT_SIZE && w < 0x1_0000
  {
    var (bits, value) := Lookup(lut, w);
    Covered(lut, w, 256, LUT_SIZE) && bits <= 16 &&
    match DecodeSymbol(t, Low(w, 16) + rest)
    case Got(symbol, remaining) => value == symbol && remaining == (Low(w, 16) + rest)[bits..]
    case Fail => value >= INVALID_SYMBOL
  }

  ghost predicate Refines(t: HuffmanTable, lut: Lut) {
    && Valid(t) && |lut| == LUT_SIZE
    && forall w: nat, rest: Bits :: w < 0x1_0000 ==> Agrees(t, lut, w, rest)
  }

  /** A window in the part of symbol p decodes to it. */
  lemma DecodedCode(t: HuffmanTable, w: nat, rest: Bits, p: nat)
    requires Valid(t) && w < 0x1_0000 && p < t.Total() && Space(t.Sizes(), p) <= w < Space(t.Sizes(), p + 1)
    ensures t.Sizes()[p] <= 16
    ensures DecodeSymbol(t, Low(w, 16) + rest) == Got(t.huffval[p], (Low(w, 16) + rest)[t.Sizes()[p]..])
  {
    var s := t.Sizes();
    hide Low, Word, Space, Fits;
    WordOfWindow(s, p, w, rest);
    var q := FindWord(s, Low(w, 16) + rest, 0);
    WordOfWindow(s, q, w, rest);
    if q < p {
      SpaceMono(s, q + 1, p);
    }
  }

  lemma DecodedNone(t: HuffmanTable, w: nat, rest: Bits)
    requires Valid(t) && Space(t.Sizes(), t.Total()) <= w < 0x1_0000
    ensures DecodeSymbol(t, Low(w, 16) + rest) == Fail
  {
    var s := t.Sizes();
    hide Low, Word, Space, Fits;
    var q := FindWord(s, Low(w, 16) + rest, 0);
    if q < |s| {
      WordOfWindow(s, q, w, rest);
      SpaceMono(s, q + 1, |s|);
    }
  }

  lemma BuiltFinds(lut: Lut, lut0: Lut, s: seq<nat>, symbols: seq<nat>, p: nat, w: nat)
    requires Built(lut, lut0, s, symbols) && p < |s| <= |symbols| && w < 0x1_0000 && Space(s, p) <= w < Space(s, p + 1)
    ensures Lookup(lut, w) == (s[p], symbols[p]) && s[p] <= 16 && Covered(lut, w, 256, LUT_SIZE)
  {
    hide Lookup, Space;
    assert Decodes(lut, s, symbols, p, 256, LUT_SIZE);
    assert Finds(lut, w, s[p], symbols[p], 256, LUT_SIZE);
  }

  lemma BuiltFindsNone(lut: Lut, lut0: Lut, s: seq<nat>, symbols: seq<nat>, w: nat)
    requires Built(lut, lut0, s, symbols) && Space(s, |s|) <= w < 0x1_0000 && Blank(lut0)
    ensures Covered(lut, w, 256, LUT_SIZE) && Lookup(lut, w).0 <= 16 && Lookup(lut, w).1 == UNUSED
  {
    hide Lookup, Space, Covered, Known;
    assert FindsNone(lut, w);
  }

  /** The table with the additional symbol finds what the code words define. */
  lemma BuiltAgrees(t: HuffmanTable, lut: Lut, lut0: Lut, s: seq<nat>, symbols: seq<nat>, w: nat, rest: Bits)
    requires Valid(t) && Built(lut, lut0, s, symbols) && w < 0x1_0000
    requires |s| == t.Total() + 1 && s[..t.Total()] == t.Sizes() && symbols == t.huffval[..t.Total()] + [INVALID_SYMBOL]
    requires forall p :: 0 <= p <= t.Total() ==> Space(s, p) == Space(t.Sizes(), p)
    requires Space(s, |s|) < 0x1_0000 ==> Blank(lut0)
    ensures Agrees(t, lut, w, rest)
  {
    var n := t.Total();
    assert CodeLengths(s);
    hide Space, DecodeSymbol, Lookup, Built, Low, Covered, SizesUpTo, Valid, CodeLengths;
    if w < Space(s, |s|) {
      var p := Owner(s, w, |s|);
      BuiltFinds(lut, lut0, s, symbols, p, w);
      if p < n {
        assert s[p] == t.Sizes()[p];
        DecodedCode(t, w, rest, p);
      } else {
        DecodedNone(t, w, rest);
      }
    } else {
      SpaceMono(s, n, |s|);
      BuiltFindsNone(lut, lut0, s, symbols, w);
      DecodedNone(t, w, rest);
    }
  }

  // ---------------------------------------------------------------- the table for a Huffman table

  /** A table is either blank, or its first entry shows that it is in use. */
  ghost predicate BlankOrUsed(lut: Lut) {
    |lut| == LUT_SIZE && (lut[0].value == UNUSED ==> Blank(lut))
  }

  lemma FirstEntryUsed(lut: Lut, lut0: Lut, s: seq<nat>, symbols: seq<nat>)
    requires Built(lut, lut0, s, symbols) && 0 < |s| <= |symbols| && symbols[0] < LUT_SIZE
    ensures lut[0].value != UNUSED
  {
    assert Decodes(lut, s, symbols, 0, 256, LUT_SIZE);
    SpaceNext(s, 0);
    assert Finds(lut, 0, s[0], symbols[0], 256, LUT_SIZE);
  }

  lemma BuiltRefines(t: HuffmanTable, lut: Lut, lut0: Lut, s: seq<nat>, symbols: seq<nat>)
    requires Valid(t) && Built(lut, lut0, s, symbols)
    requires |s| == t.Total() + 1 && s[..t.Total()] == t.Sizes() && symbols == t.huffval[..t.Total()] + [INVALID_SYMBOL]
    requires forall p :: 0 <= p <= t.Total() ==> Space(s, p) == Space(t.Sizes(), p)
    requires Space(s, |s|) < 0x1_0000 ==> Blank(lut0)
    ensures Refines(t, lut) && BlankOrUsed(lut)
  {
    FirstEntryUsed(lut, lut0, s, symbols);
    hide Agrees, Built, Space;
    forall w: nat, rest: Bits | w < 0x1_0000
      ensures Agrees(t, lut, w, rest)
    {
      BuiltAgrees(t, lut, lut0, s, symbols, w, rest);
    }
  }

  lemma NoCodesRefines(t: HuffmanTable, lut: Lut, lut0: Lut)
    requires Valid(t) && t.Total() == 0 && Written(lut0, lut, 0, 256, Entry(0, INVALID_SYMBOL))
    ensures Refines(t, lut) && BlankOrUsed(lut)
  {
    forall w: nat, rest: Bits | w < 0x1_0000
      ensures Agrees(t, lut, w, rest)
    {
      DecodedNone(t, w, rest);
      hide DecodeSymbol, Low;
    }
  }

  /** The lookup table of an accepted table decodes all windows; a rejected one leaves it as it was. */
  method BuildHuffmanLookupTable(t: HuffmanTable, lut: array<Entry>) returns (r: TableCheck)
    requires t.Shape() && lut.Length == LUT_SIZE && BlankOrUsed(lut[..])
    modifies lut
    ensures r.Accepted? <==> Valid(t)
    ensures r == DuplicateValue <==> !Distinct(t.huffval[..t.Total()])
    ensures r.Accepted? ==> Refines(t, lut[..])
    ensures !r.Accepted? ==> lut[..] == old(lut[..])
    ensures BlankOrUsed(lut[..])
  {
    hide Valid, Distinct, Fits, SizesUpTo, MaxDepth, Space, CodeLengths, Pow2, Built, Refines, Written;
    r := CheckHuffmanTable(t);
    if r.Accepted? {
      AcceptedFits(t, r.counts, r.space);
      if r.space > 0 && lut[0].value != UNUSED {
        FillEntries(lut, 0, LUT_SIZE, Entry(0, UNUSED));
        NowBlank(lut[..], old(lut[..]));
      }
      ghost var lut0 := lut[..];
      BuildJpegHuffmanTable(r.counts, r.values, lut);
      if |r.values| == 1 {
        NoCodesRefines(t, lut[..], lut0);
      } else {
        BuiltRefines(t, lut[..], lut0, SizesUpTo(r.counts, 16), r.values);
      }
    }
  }

  lemma NowBlank(lut: Lut, lut0: Lut)
    requires Written(lut0, lut, 0, LUT_SIZE, Entry(0, UNUSED))
    ensures Blank(lut)
  {
  }
}
