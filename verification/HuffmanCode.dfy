/**
 Huffman tables as JPEG stores them, and the canonical code of Annex C of ITU-T T.81.
 */
module HuffmanCode {
  import opened Arithmetic
  import opened BitStrings

  /** bits[l] symbols, 1 <= l <= 16, have code words of length l; huffval lists the symbols. */
  datatype HuffmanTable = HuffmanTable(bits: seq<nat>, huffval: seq<Byte>)
  {
    predicate Shape() {
      |bits| == 17 && Total() <= |huffval|
    }

    function Total(): nat
      requires |bits| == 17
    {
      |SizesUpTo(bits, 16)|
    }

    /** The code lengths in the order of the symbols: the list HUFFSIZE of section C.2. */
    function Sizes(): (s: seq<nat>)
      requires |bits| == 17
      ensures CodeLengths(s)
    {
      SizesAreLengths(bits, 16);
      SizesUpTo(bits, 16)
    }
  }

  function Repeated(l: nat, n: nat): (s: seq<nat>)
    ensures |s| == n && forall i :: 0 <= i < n ==> s[i] == l
  {
    seq(n, _ => l)
  }

  function SizesUpTo(bits: seq<nat>, l: nat): seq<nat>
    requires l < |bits|
  {
    if l == 0 then [] else SizesUpTo(bits, l - 1) + Repeated(l, bits[l])
  }

  /** Non-decreasing code lengths between 1 and 16. */
  predicate CodeLengths(sizes: seq<nat>) {
    && (forall i :: 0 <= i < |sizes| ==> 1 <= sizes[i] <= 16)
    && forall i, j :: 0 <= i <= j < |sizes| ==> sizes[i] <= sizes[j]
  }

  lemma {:induction false} SizesAreLengths(bits: seq<nat>, l: nat)
    requires l < |bits| <= 17
    ensures CodeLengths(SizesUpTo(bits, l))
    ensures forall i :: 0 <= i < |SizesUpTo(bits, l)| ==> SizesUpTo(bits, l)[i] <= l
  {
    if l > 0 {
      SizesAreLengths(bits, l - 1);
    }
  }

  /** The code space that code words of the given lengths use, of 2^16 units in all. */
  function Space(sizes: seq<nat>, p: nat): nat
    requires p <= |sizes| && CodeLengths(sizes)
  {
    if p == 0 then 0 else Space(sizes, p - 1) + Pow2(16 - sizes[p - 1])
  }

  /** HUFFCODE of section C.2: the code word of symbol p as a number. */
  function CodeAt(sizes: seq<nat>, p: nat): nat
    requires p < |sizes| && CodeLengths(sizes)
  {
    if p == 0 then 0 else (CodeAt(sizes, p - 1) + 1) * Pow2(sizes[p] - sizes[p - 1])
  }

  /** The code word of symbol p. */
  function Word(sizes: seq<nat>, p: nat): Bits
    requires p < |sizes| && CodeLengths(sizes)
  {
    Low(CodeAt(sizes, p), sizes[p])
  }

  /** Aligned to 16 bits, a code word is the space that its predecessors use. */
  lemma {:induction false} CodeIsSpace(sizes: seq<nat>, p: nat)
    requires p < |sizes| && CodeLengths(sizes)
    ensures CodeAt(sizes, p) * Pow2(16 - sizes[p]) == Space(sizes, p)
  {
    if p > 0 {
      CodeIsSpace(sizes, p - 1);
      hide Pow2;
      var a, b := sizes[p - 1], sizes[p];
      Pow2Sum(b - a, 16 - b);
      NextScaled(CodeAt(sizes, p - 1), Pow2(b - a), Pow2(16 - b), Pow2(16 - a));
    }
  }

  lemma NextScaled(c: int, x: int, y: int, z: int)
    requires z == x * y
    ensures (c + 1) * x * y == c * z + z
  {
    assert (c + 1) * x * y == (c + 1) * (x * y);
  }

  lemma {:induction false} SpaceMono(sizes: seq<nat>, p: nat, q: nat)
    requires p <= q <= |sizes| && CodeLengths(sizes)
    ensures Space(sizes, p) <= Space(sizes, q)
    ensures p < q ==> Space(sizes, p) + Pow2(16 - sizes[p]) <= Space(sizes, q)
    decreases q - p
  {
    hide Pow2;
    if p < q {
      SpaceMono(sizes, p + 1, q);
      assert Space(sizes, p + 1) == Space(sizes, p) + Pow2(16 - sizes[p]);
    }
  }

  /** The code words, and one further word of the greatest length, fit into the code space. */
  predicate Fits(sizes: seq<nat>)
    requires CodeLengths(sizes)
  {
    sizes != [] ==> Space(sizes, |sizes|) + Pow2(16 - sizes[|sizes| - 1]) <= Pow2(16)
  }

  /** A code word has the bits its length gives it, and is never all ones: that one is reserved. */
  lemma CodeFits(sizes: seq<nat>, p: nat)
    requires CodeLengths(sizes) && Fits(sizes) && p < |sizes|
    ensures CodeAt(sizes, p) + 1 < Pow2(sizes[p])
  {
    hide Pow2;
    CodeIsSpace(sizes, p);
    SpaceMono(sizes, p, |sizes|);
    Pow2Sum(sizes[p], 16 - sizes[p]);
    CancelUnit(CodeAt(sizes, p), Pow2(16 - sizes[p]), Pow2(sizes[p]));
  }

  lemma CancelUnit(c: int, u: int, q: int)
    requires u > 0 && c * u + u < q * u
    ensures c + 1 < q
  {
    MulBounds(c + 1 - q, u);
    assert (c + 1 - q) * u == c * u + u - q * u;
  }

  lemma PrefixQuotient(cp: nat, sp: nat, cq: nat, d: nat)
    requires cp < Pow2(sp) && cq < Pow2(sp + d) && Low(cp, sp) <= Low(cq, sp + d)
    ensures cq / Pow2(d) == cp
  {
    hide Pow2;
    LowSplit(cq, sp, d);
    assert Low(cp, sp) == Low(cq, sp + d)[..sp] == Low(cq / Pow2(d), sp);
    Pow2Sum(sp, d);
    hide *;
    QuotientBound(cq, Pow2(d), Pow2(sp));
    LowInjective(cp, cq / Pow2(d), sp);
  }

  /** If word p is a prefix of word q, then code q lies in the range of code p. */
  lemma PrefixIsRange(cp: nat, sp: nat, cq: nat, d: nat)
    requires cp < Pow2(sp) && cq < Pow2(sp + d) && Low(cp, sp) <= Low(cq, sp + d)
    ensures cp * Pow2(d) <= cq < cp * Pow2(d) + Pow2(d)
  {
    hide *;
    PrefixQuotient(cp, sp, cq, d);
    assert cq == (cq / Pow2(d)) * Pow2(d) + cq % Pow2(d);
  }

  lemma Between(cp: int, cq: int, d: int, u: int, w: int)
    requires cp * d <= cq < cp * d + d && u > 0 && w == d * u
    ensures cp * w <= cq * u < cp * w + w
  {
    var e := cq - cp * d;
    assert cq * u == cp * (d * u) + e * u;
    MulBounds(d - e, u);
    assert (d - e) * u == d * u - e * u;
  }

  /** No code word is a prefix of another one. */
  lemma PrefixFree(sizes: seq<nat>, p: nat, q: nat)
    requires CodeLengths(sizes) && p < |sizes| && q < |sizes|
    requires Fits(sizes)
    requires Word(sizes, p) <= Word(sizes, q)
    ensures p == q
  {
    var cp, cq, sp, sq := CodeAt(sizes, p), CodeAt(sizes, q), sizes[p], sizes[q];
    assert |Word(sizes, p)| == sp && |Word(sizes, q)| == sq;
    assert Low(cp, sp) <= Low(cq, sq);
    hide Pow2, Low, Word, CodeAt, Space, Fits;
    CodeFits(sizes, p);
    CodeFits(sizes, q);
    PrefixIsRange(cp, sp, cq, sq - sp);
    SameRange(sizes, p, q);
  }

  /** Codes in the range of a code have no range of their own. */
  lemma SameRange(sizes: seq<nat>, p: nat, q: nat)
    requires CodeLengths(sizes) && p < |sizes| && q < |sizes| && sizes[p] <= sizes[q]
    requires var cp, w := CodeAt(sizes, p), Pow2(sizes[q] - sizes[p]); cp * w <= CodeAt(sizes, q) < cp * w + w
    ensures p == q
  {
    hide *;
    var cp, cq, sp, sq := CodeAt(sizes, p), CodeAt(sizes, q), sizes[p], sizes[q];
    LengthsBelow(sizes, q);
    Pow2Sum(sq - sp, 16 - sq);
    Between(cp, cq, Pow2(sq - sp), Pow2(16 - sq), Pow2(16 - sp));
    CodeIsSpace(sizes, p);
    CodeIsSpace(sizes, q);
    if p < q {
      SpaceMono(sizes, p, q);
    } else if q < p {
      SpaceMono(sizes, q, p);
    }
  }

  lemma LengthsBelow(sizes: seq<nat>, p: nat)
    requires CodeLengths(sizes) && p < |sizes|
    ensures 1 <= sizes[p] <= 16
  {
  }

  // ---------------------------------------------------------------- tables

  predicate Distinct<T(==)>(s: seq<T>) {
    forall i, j :: 0 <= i < j < |s| ==> s[i] != s[j]
  }

  /** What both the encoder and the decoder demand of a table: distinct symbols, and lengths that
      leave the all-ones word of the greatest length free. */
  predicate Valid(t: HuffmanTable) {
    t.Shape() && Distinct(t.huffval[..t.Total()]) && Fits(t.Sizes())
  }

  /** At most 256 symbols then exist. */
  lemma ValidTablesAreSmall(t: HuffmanTable)
    requires Valid(t)
    ensures t.Total() <= 256
  {
    DistinctBelow(t.huffval[..t.Total()], 256);
  }

  lemma {:induction false} DistinctBelow(s: seq<nat>, n: nat)
    requires Distinct(s) && forall i :: 0 <= i < |s| ==> s[i] < n
    ensures |s| <= n
  {
    if s != [] {
      assert s[0] < n;
      if m :| 0 <= m < |s| && s[m] == n - 1 {
        DistinctBelow(s[..m] + s[m + 1..], n - 1);
      } else {
        DistinctBelow(s, n - 1);
      }
    }
  }

  function MaxDepth(bits: seq<nat>, l: nat): (d: nat)
    requires l < |bits|
    ensures 1 <= d && d <= (if l == 0 then 1 else l)
  {
    if l == 0 then 1 else if bits[l] != 0 then l else MaxDepth(bits, l - 1)
  }

  lemma {:induction false} LastSizeIsMaxDepth(bits: seq<nat>, l: nat)
    requires l < |bits|
    ensures SizesUpTo(bits, l) != [] ==> SizesUpTo(bits, l)[|SizesUpTo(bits, l)| - 1] == MaxDepth(bits, l)
    ensures SizesUpTo(bits, l) == [] ==> MaxDepth(bits, l) == 1
  {
    if l > 0 {
      LastSizeIsMaxDepth(bits, l - 1);
    }
  }

  lemma {:induction false} SpaceOfPrefix(s: seq<nat>, p: nat, q: nat)
    requires CodeLengths(s) && q <= p <= |s|
    ensures CodeLengths(s[..p]) && Space(s[..p], q) == Space(s, q)
  {
    hide Pow2;
    if q > 0 {
      SpaceOfPrefix(s, p, q - 1);
    }
  }

  lemma {:induction false} SpaceOfRun(s: seq<nat>, m: nat, l: nat, k: nat)
    requires CodeLengths(s) && m + k <= |s| && l <= 16 && forall i :: m <= i < m + k ==> s[i] == l
    ensures Space(s, m + k) == Space(s, m) + k * Pow2(16 - l)
  {
    hide Pow2;
    if k > 0 {
      SpaceOfRun(s, m, l, k - 1);
      assert k * Pow2(16 - l) == (k - 1) * Pow2(16 - l) + Pow2(16 - l);
    }
  }

  lemma SizesStep(bits: seq<nat>, l: nat)
    requires 1 <= l < |bits|
    ensures |SizesUpTo(bits, l)| == |SizesUpTo(bits, l - 1)| + bits[l]
    ensures SizesUpTo(bits, l)[..|SizesUpTo(bits, l - 1)|] == SizesUpTo(bits, l - 1)
    ensures forall i :: |SizesUpTo(bits, l - 1)| <= i < |SizesUpTo(bits, l)| ==> SizesUpTo(bits, l)[i] == l
  {
  }

  lemma SpaceOfSizes(bits: seq<nat>, l: nat)
    requires 1 <= l < |bits| <= 17
    ensures CodeLengths(SizesUpTo(bits, l - 1)) && CodeLengths(SizesUpTo(bits, l))
    ensures |SizesUpTo(bits, l)| == |SizesUpTo(bits, l - 1)| + bits[l]
    ensures Space(SizesUpTo(bits, l), |SizesUpTo(bits, l)|)
         == Space(SizesUpTo(bits, l - 1), |SizesUpTo(bits, l - 1)|) + bits[l] * Pow2(16 - l)
  {
    hide *;
    SizesAreLengths(bits, l - 1);
    SizesAreLengths(bits, l);
    SizesStep(bits, l);
    var m := |SizesUpTo(bits, l - 1)|;
    SpaceOfPrefix(SizesUpTo(bits, l), m, m);
    SpaceOfRun(SizesUpTo(bits, l), m, l, bits[l]);
  }

  datatype TableCheck = Accepted(counts: seq<nat>, values: seq<nat>, space: nat) | DuplicateValue | InvalidLengths

  const INVALID_SYMBOL: nat := 256

  /** The first loop of the check: the counts, and the code space that remains. */
  method CountLengths(t: HuffmanTable) returns (counts: seq<nat>, totalCount: nat, space: int, maxDepth: nat)
    requires t.Shape()
    ensures counts == t.bits[0 := 0] && totalCount == t.Total() && maxDepth == MaxDepth(t.bits, 16)
    ensures space == Pow2(16) - Space(t.Sizes(), totalCount)
  {
    hide Pow2;
    counts := [0];
    totalCount, space, maxDepth := 0, 0x1_0000, 1;
    Pow2Of16();
    for i := 1 to 17
      invariant |counts| == i && counts == t.bits[0 := 0][..i]
      invariant totalCount == |SizesUpTo(t.bits, i - 1)| && maxDepth == MaxDepth(t.bits, i - 1)
      invariant CodeLengths(SizesUpTo(t.bits, i - 1))
      invariant space == Pow2(16) - Space(SizesUpTo(t.bits, i - 1), totalCount)
    {
      var count := t.bits[i];
      if count != 0 {
        maxDepth := i;
      }
      counts := counts + [count];
      SpaceOfSizes(t.bits, i);
      totalCount := totalCount + count;
      space := space - count * Pow2(16 - i);
    }
  }

  /** The second loop: the values, unless one occurs twice. */
  method CollectValues(huffval: seq<Byte>, totalCount: nat) returns (distinct: bool, values: seq<nat>)
    requires totalCount <= |huffval|
    ensures distinct <==> Distinct(huffval[..totalCount])
    ensures distinct ==> values == huffval[..totalCount]
  {
    values := [];
    var seen := new bool[256](_ => false);
    for i := 0 to totalCount
      invariant values == huffval[..i] && Distinct(values)
      invariant forall v: Byte :: seen[v] <==> v in values
    {
      var value := huffval[i];
      if seen[value] {
        var j :| 0 <= j < i && values[j] == value;
        assert huffval[..totalCount][j] == huffval[..totalCount][i];
        return false, [];
      }
      seen[value] := true;
      values := values + [value];
    }
    distinct := true;
  }

  /** The checks that precede the construction of a decoding table, and its input: the counts and
      values with one more symbol, of the greatest depth and invalid, that gets the all-ones word, and
      the code space that then remains. */
  method CheckHuffmanTable(t: HuffmanTable) returns (r: TableCheck)
    requires t.Shape()
    ensures r.Accepted? <==> Valid(t)
    ensures r == DuplicateValue <==> !Distinct(t.huffval[..t.Total()])
    ensures r.Accepted? ==> r.counts == t.bits[0 := 0][MaxDepth(t.bits, 16) := t.bits[MaxDepth(t.bits, 16)] + 1]
    ensures r.Accepted? ==> r.values == t.huffval[..t.Total()] + [INVALID_SYMBOL]
    ensures r.Accepted? ==> r.space == Pow2(16) - Space(t.Sizes(), t.Total()) - Pow2(16 - MaxDepth(t.bits, 16))
  {
    hide Pow2, Space, CodeLengths, Distinct, SizesUpTo;
    var counts, totalCount, space, maxDepth := CountLengths(t);
    var distinct, values := CollectValues(t.huffval, totalCount);
    if !distinct {
      return DuplicateValue;
    }
    counts := counts[maxDepth := counts[maxDepth] + 1];
    values := values + [INVALID_SYMBOL];
    space := space - Pow2(16 - maxDepth);
    SentinelSpace(t);
    if space < 0 {
      return InvalidLengths;
    }
    return Accepted(counts, values, space);
  }

  lemma SentinelSpace(t: HuffmanTable)
    requires t.Shape()
    ensures Fits(t.Sizes()) <==> Space(t.Sizes(), t.Total()) + Pow2(16 - MaxDepth(t.bits, 16)) <= Pow2(16)
  {
    LastSizeIsMaxDepth(t.bits, 16);
  }

  // ---------------------------------------------------------------- the encoder's code table

  /** The number of extra bits that follow a symbol: its low nibble, or the run length category of an
      end-of-band run (low nibble 0); 0 for the symbol 0xF0. */
  function NumExtraBits(symbol: Byte): (n: nat)
    ensures n <= 15
  {
    if symbol % 16 > 0 then symbol % 16 else if symbol / 16 < 15 then symbol / 16 else 0
  }

  /** What a code table must hold for the symbol of position p: room for the extra bits included. */
  ghost predicate Coded(t: HuffmanTable, depth: seq<nat>, code: seq<nat>, p: nat)
    requires t.Shape() && p < t.Total() && |depth| == |code| == 256
  {
    depth[t.huffval[p]] == DepthOf(t, p) && code[t.huffval[p]] == CodeOf(t, p)
  }

  /** The entries of the symbol of position p. */
  function DepthOf(t: HuffmanTable, p: nat): nat
    requires t.Shape() && p < t.Total()
  {
    t.Sizes()[p] + NumExtraBits(t.huffval[p])
  }

  function CodeOf(t: HuffmanTable, p: nat): nat
    requires t.Shape() && p < t.Total()
  {
    CodeAt(t.Sizes(), p) * Pow2(NumExtraBits(t.huffval[p]))
  }

  /** Next code of the length si on the way to symbol p: Annex C doubles the code once per length. */
  ghost predicate OnTheWay(sizes: seq<nat>, p: nat, si: nat, nextCode: nat)
    requires CodeLengths(sizes)
  {
    p < |sizes| ==> si <= sizes[p] && nextCode * Pow2(sizes[p] - si) == CodeAt(sizes, p)
  }

  lemma FirstCode(sizes: seq<nat>, si: nat)
    requires CodeLengths(sizes) && (sizes != [] ==> si == sizes[0])
    ensures OnTheWay(sizes, 0, si, 0)
  {
  }

  lemma LengthNotPassed(sizes: seq<nat>, p: nat, si: nat, nextCode: nat)
    requires CodeLengths(sizes) && OnTheWay(sizes, p, si, nextCode) && p < |sizes|
    ensures si <= sizes[p]
  {
  }

  lemma TakeCode(sizes: seq<nat>, p: nat, si: nat, nextCode: nat)
    requires CodeLengths(sizes) && p < |sizes| && sizes[p] == si && OnTheWay(sizes, p, si, nextCode)
    ensures nextCode == CodeAt(sizes, p) && OnTheWay(sizes, p + 1, si, nextCode + 1)
  {
    assert Pow2(0) == 1;
  }

  lemma DoubleLeft(a: int, r: int)
    ensures a * (2 * r) == (a * 2) * r
  {
  }

  lemma DoubleCode(sizes: seq<nat>, p: nat, si: nat, nextCode: nat)
    requires CodeLengths(sizes) && OnTheWay(sizes, p, si, nextCode) && (p < |sizes| ==> sizes[p] != si)
    ensures OnTheWay(sizes, p, si + 1, nextCode * 2)
  {
    if p < |sizes| {
      var r := Pow2(sizes[p] - si - 1);
      assert Pow2(sizes[p] - si) == 2 * r;
      DoubleLeft(nextCode, r);
    }
  }

  /** The lengths of all code words, in order: huff_size without its sentinel. */
  method CodeSizes(t: HuffmanTable) returns (huffSize: seq<nat>)
    requires |t.bits| == 17
    ensures huffSize == t.Sizes()
  {
    huffSize := [];
    for l := 1 to 17
      invariant huffSize == SizesUpTo(t.bits, l - 1)
    {
      var i := t.bits[l];
      ghost var before := huffSize;
      while i > 0
        invariant 0 <= i <= t.bits[l] && huffSize == before + Repeated(l, t.bits[l] - i)
      {
        huffSize := huffSize + [l];
        i := i - 1;
      }
    }
  }

  /** The code words of section C.2: one counter that is doubled whenever the length grows by one. */
  method CodeWords(huffSize: seq<nat>) returns (huffCode: seq<nat>)
    requires CodeLengths(huffSize)
    ensures |huffCode| == |huffSize|
    ensures forall p :: 0 <= p < |huffSize| ==> huffCode[p] == CodeAt(huffSize, p)
  {
    hide OnTheWay, CodeAt, Pow2;
    huffCode := [];
    var nextCode, p := 0, 0;
    var si := if huffSize == [] then 0 else huffSize[0];
    FirstCode(huffSize, si);
    while p < |huffSize|
      invariant p == |huffCode| <= |huffSize| && OnTheWay(huffSize, p, si, nextCode)
      invariant forall q :: 0 <= q < p ==> huffCode[q] == CodeAt(huffSize, q)
      invariant p < |huffSize| ==> si <= huffSize[p]
      decreases |huffSize| - p, if p < |huffSize| then huffSize[p] - si else 0
    {
      while p < |huffSize| && huffSize[p] == si
        invariant p == |huffCode| <= |huffSize| && OnTheWay(huffSize, p, si, nextCode)
        invariant p < |huffSize| ==> si <= huffSize[p]
        invariant forall q :: 0 <= q < p ==> huffCode[q] == CodeAt(huffSize, q)
      {
        TakeCode(huffSize, p, si, nextCode);
        huffCode := huffCode + [nextCode];
        p := p + 1;
        nextCode := nextCode + 1;
        if p < |huffSize| {
          LengthNotPassed(huffSize, p, si, nextCode);
        }
      }
      DoubleCode(huffSize, p, si, nextCode);
      nextCode := nextCode * 2;
      si := si + 1;
      if p < |huffSize| {
        LengthNotPassed(huffSize, p, si, nextCode);
      }
    }
  }

  /** The tables after the first p symbols: these have their codes, all other entries are as before. */
  ghost predicate Entered(t: HuffmanTable, was: (seq<nat>, seq<nat>), now: (seq<nat>, seq<nat>), p: nat)
    requires t.Shape() && p <= t.Total() && |was.0| == |was.1| == |now.0| == |now.1| == 256
  {
    && (forall q :: 0 <= q < p ==> Coded(t, now.0, now.1, q))
    && (forall s: Byte :: s !in t.huffval[..p] ==> now.0[s] == was.0[s] && now.1[s] == was.1[s])
  }

  /** Entering the code of symbol p does not disturb the codes of the symbols before it. */
  lemma EnterCode(t: HuffmanTable, was: (seq<nat>, seq<nat>), now: (seq<nat>, seq<nat>), p: nat,
                  depth: seq<nat>, code: seq<nat>)
    requires t.Shape() && Distinct(t.huffval[..t.Total()]) && p < t.Total()
    requires |was.0| == |was.1| == |now.0| == |now.1| == 256 && Entered(t, was, now, p)
    requires depth == now.0[t.huffval[p] := DepthOf(t, p)] && code == now.1[t.huffval[p] := CodeOf(t, p)]
    ensures Entered(t, was, (depth, code), p + 1)
  {
    hide DepthOf, CodeOf, SizesUpTo;
    forall q | 0 <= q < p + 1
      ensures Coded(t, depth, code, q)
    {
      var symbols := t.huffval[..t.Total()];
      assert q < p ==> Coded(t, now.0, now.1, q) && symbols[q] != symbols[p];
    }
    assert t.huffval[..p + 1] == t.huffval[..p] + [t.huffval[p]];
  }

  method BuildHuffmanCodeTable(t: HuffmanTable, depth: array<nat>, code: array<nat>)
    requires Valid(t) && depth.Length == code.Length == 256 && depth != code
    modifies depth, code
    ensures forall p :: 0 <= p < t.Total() ==> Coded(t, depth[..], code[..], p)
    ensures forall s: Byte :: s !in t.huffval[..t.Total()] ==> depth[s] == old(depth[s]) && code[s] == old(code[s])
  {
    hide CodeAt, Pow2, CodeLengths, Fits, Coded, NumExtraBits, SizesUpTo;
    var huffSize := CodeSizes(t);
    var huffCode := CodeWords(huffSize);
    ghost var was := (depth[..], code[..]);
    for p := 0 to |huffSize|
      invariant Entered(t, was, (depth[..], code[..]), p)
    {
      hide Entered;
      var i := t.huffval[p];
      var nbits := NumExtraBits(i);
      ghost var now := (depth[..], code[..]);
      depth[i] := huffSize[p] + nbits;
      code[i] := huffCode[p] * Pow2(nbits);
      EnterCode(t, was, now, p, depth[..], code[..]);
    }
  }

  lemma Pow2Of16()
    ensures Pow2(16) == 0x1_0000
  {
    Pow2Of8();
    Pow2Sum(8, 8);
  }
}
