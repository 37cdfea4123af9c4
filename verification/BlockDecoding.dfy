/**
 Decoding one block as sections F.2.2.1 to F.2.2.3 of ITU-T T.81 prescribe, with the limits of the
 decoder of the repository, and the round trip with the encoder.
 */
module BlockDecoding {
  import opened Arithmetic
  import opened BitStrings
  import opened BitWriter
  import opened BlockCoding
  import opened BlockSymbols
  import opened EntropyBytes
  import opened HuffmanCode
  import opened ScanWriter

  datatype Decoded<T> = Fail | Got(value: T, rest: Bits)

  const DC_ALPHABET_SIZE: nat := 12

  // ---------------------------------------------------------------- the decoder

  /** The first symbol position from p on whose code word starts the bit string. */
  function FindWord(sizes: seq<nat>, bits: Bits, p: nat): (q: nat)
    requires CodeLengths(sizes) && p <= |sizes|
    ensures p <= q <= |sizes|
    ensures q < |sizes| ==> Word(sizes, q) <= bits
    ensures forall i :: p <= i < q ==> !(Word(sizes, i) <= bits)
    decreases |sizes| - p
  {
    if p == |sizes| || Word(sizes, p) <= bits then p else FindWord(sizes, bits, p + 1)
  }

  function DecodeSymbol(t: HuffmanTable, bits: Bits): Decoded<nat>
    requires Valid(t)
  {
    var p := FindWord(t.Sizes(), bits, 0);
    if p == t.Total() then Fail else Got(t.huffval[p], bits[t.Sizes()[p]..])
  }

  function ReadBits(bits: Bits, n: nat): Decoded<nat> {
    if |bits| < n then Fail else Got(ValueOf(bits[..n]), bits[n..])
  }

  /** The AC coefficients from zigzag position k on. */
  function DecodeAc(ac: HuffmanTable, k: nat, coeffs: Block, bits: Bits): Decoded<Block>
    requires Valid(ac)
    decreases 64 - k
  {
    if k > 63 then Got(coeffs, bits) else
      match DecodeSymbol(ac, bits)
      case Fail => Fail
      case Got(sr, bits1) =>
        var r, s := sr / 16, sr % 16;
        if s > 0 then
          if k + r > 63 || s >= DC_ALPHABET_SIZE then Fail else
            match ReadBits(bits1, s)
            case Fail => Fail
            case Got(v, bits2) => DecodeAc(ac, k + r + 1, coeffs[k + r := HuffExtend(v, s)], bits2)
        else if r == 15 then DecodeAc(ac, k + 16, coeffs, bits1)
        else if r > 0 then Fail
        else Got(coeffs, bits1)
  }

  function ZeroBlock(): Block {
    seq(64, _ => 0)
  }

  lemma ZeroFirst()
    ensures ZeroBlock()[0 := 0] == ZeroBlock()
  {
  }

  function DecodeBlock(dc: HuffmanTable, ac: HuffmanTable, bits: Bits): Decoded<Block>
    requires Valid(dc) && Valid(ac)
  {
    match DecodeSymbol(dc, bits)
    case Fail => Fail
    case Got(s, bits1) =>
      if s >= DC_ALPHABET_SIZE then Fail
      else if s == 0 then DecodeAc(ac, 1, ZeroBlock(), bits1)
      else
        match ReadBits(bits1, s)
        case Fail => Fail
        case Got(v, bits2) => DecodeAc(ac, 1, ZeroBlock()[0 := HuffExtend(v, s)], bits2)
  }

  /** Unfolding of DecodeAc for a symbol, whose extra bits have the value v. */
  lemma AcStep(ac: HuffmanTable, k: nat, coeffs: Block, bits: Bits, sr: nat, bits1: Bits, v: nat, bits2: Bits)
    requires Valid(ac) && k <= 63 && DecodeSymbol(ac, bits) == Got(sr, bits1)
    requires 0 < sr % 16 < DC_ALPHABET_SIZE && k + sr / 16 <= 63 ==> ReadBits(bits1, sr % 16) == Got(v, bits2)
    ensures var r, s := sr / 16, sr % 16;
      && (s > 0 && (k + r > 63 || s >= DC_ALPHABET_SIZE) ==> DecodeAc(ac, k, coeffs, bits) == Fail)
      && (s > 0 && k + r <= 63 && s < DC_ALPHABET_SIZE ==>
            DecodeAc(ac, k, coeffs, bits) == DecodeAc(ac, k + r + 1, coeffs[k + r := HuffExtend(v, s)], bits2))
      && (s == 0 && r == 15 ==> DecodeAc(ac, k, coeffs, bits) == DecodeAc(ac, k + 16, coeffs, bits1))
      && (s == 0 && 0 < r < 15 ==> DecodeAc(ac, k, coeffs, bits) == Fail)
      && (s == 0 && r == 0 ==> DecodeAc(ac, k, coeffs, bits) == Got(coeffs, bits1))
  {
    hide DecodeSymbol, ReadBits, HuffExtend;
  }

  lemma AcFails(ac: HuffmanTable, k: nat, coeffs: Block, bits: Bits)
    requires Valid(ac) && k <= 63 && DecodeSymbol(ac, bits) == Fail
    ensures DecodeAc(ac, k, coeffs, bits) == Fail
  {
  }

  lemma AcEnds(ac: HuffmanTable, k: nat, coeffs: Block, bits: Bits)
    requires Valid(ac) && k > 63
    ensures DecodeAc(ac, k, coeffs, bits) == Got(coeffs, bits)
  {
  }

  // ---------------------------------------------------------------- code words and code tables

  function Symbols(t: HuffmanTable): seq<Byte>
    requires t.Shape()
  {
    t.huffval[..t.Total()]
  }

  /** c is the code table of t: what BuildHuffmanCodeTable stores, and depth 0 for other symbols. */
  ghost predicate TableOf(t: HuffmanTable, c: CodeTable) {
    && Valid(t) && c.WellFormed()
    && (forall p :: 0 <= p < t.Total() ==> Coded(t, c.depth, c.code, p))
    && (forall s: Byte :: s !in Symbols(t) ==> c.depth[s] == 0)
  }

  /** Decoding a code word finds its symbol, whatever follows. */
  lemma DecodeWord(t: HuffmanTable, p: nat, rest: Bits)
    requires Valid(t) && p < t.Total()
    ensures DecodeSymbol(t, Word(t.Sizes(), p) + rest) == Got(t.huffval[p], rest)
  {
    var sizes := t.Sizes();
    var bits := Word(sizes, p) + rest;
    var q := FindWord(sizes, bits, 0);
    assert Word(sizes, p) <= bits;
    assert sizes[q] <= sizes[p];
    WordLength(sizes, p);
    WordLength(sizes, q);
    hide Word, CodeLengths, Fits, FindWord;
    assert Word(sizes, q) == bits[..|Word(sizes, q)|] == Word(sizes, p)[..|Word(sizes, q)|];
    PrefixFree(sizes, q, p);
  }

  lemma WordLength(sizes: seq<nat>, p: nat)
    requires CodeLengths(sizes) && p < |sizes|
    ensures |Word(sizes, p)| == sizes[p]
  {
  }

  lemma {:induction false} OrFits(a: nat, b: nat, d: nat, w: nat)
    requires a < Pow2(d) && b < Pow2(d) && d <= w
    ensures Or(a, b, w) < Pow2(d)
  {
    if d > 0 {
      OrFits(a / 2, b / 2, d - 1, w - 1);
    } else {
      OrZero(0, w);
    }
  }

  lemma ShiftedCodeFits(code: nat, size: nat, n: nat)
    requires size <= 16 && n <= 15 && code < Pow2(size)
    ensures code * Pow2(n) < Pow2(size + n) <= Pow2(31) < 0x1_0000_0000 && Pow2(n) <= Pow2(size + n)
  {
    Pow2Of31();
    hide Pow2;
    Pow2Mono(size + n, 31);
    Pow2Sum(size, n);
    Pow2Mono(n, size + n);
    MulBounds(Pow2(size) - code, Pow2(n));
    assert (Pow2(size) - code) * Pow2(n) == Pow2(size) * Pow2(n) - code * Pow2(n);
  }

  lemma SmallMod(x: uint64)
    ensures x % WORD == x
  {
  }

  lemma ShlOfSmall(code: uint64, n: nat, x: uint64)
    requires x == code * Pow2(n)
    ensures Shl(code, n) == x
  {
    ShlAsProduct(code, n);
    hide Pow2, Shl;
    SmallMod(x);
  }

  /** A code word shifted left and or-ed with extra bits is the word followed by these bits. */
  lemma WordWithExtraBits(code: nat, size: nat, e: nat, n: nat, x: uint64)
    requires size <= 16 && n <= 15 && code < Pow2(size) && e < Pow2(n) && e < WORD && code < WORD && x == code * Pow2(n)
    ensures OrWord(x, e) < Pow2(size + n)
    ensures Low(OrWord(x, e), size + n) == Low(code, size) + Low(e, n)
  {
    hide Pow2, Low, Shl, Or;
    ShiftedCodeFits(code, size, n);
    ShlOfSmall(code, n, x);
    LowOfShiftedOr(code, size, e, n);
    OrFits(x, e, size + n, 64);
  }

  lemma Pow2Of31()
    ensures 2 * Pow2(31) == 0x1_0000_0000
  {
    Pow2Of16();
    Pow2Sum(16, 16);
  }

  lemma CodeBitsOfSymbol(t: HuffmanTable, c: CodeTable, p: nat, e: uint64)
    requires TableOf(t, c) && p < t.Total() && e < Pow2(NumExtraBits(t.huffval[p]))
    ensures CanEmit(c, t.huffval[p], e)
    ensures CodeBits(c, t.huffval[p], e) == Word(t.Sizes(), p) + Low(e, NumExtraBits(t.huffval[p]))
  {
    var sizes, s := t.Sizes(), t.huffval[p];
    assert Coded(t, c.depth, c.code, p);
    var n, code := NumExtraBits(s), CodeAt(sizes, p);
    assert c.depth[s] == sizes[p] + n && c.code[s] == code * Pow2(n) && 1 <= sizes[p] <= 16;
    CodeFits(sizes, p);
    assert code < Pow2(sizes[p]) < WORD by {
      Pow2Of31();
      Pow2Mono(sizes[p], 31);
    }
    hide Pow2, NumExtraBits, CodeAt, OrWord, Low, CodeLengths, Coded, Valid;
    WordWithExtraBits(code, sizes[p], e, n, c.code[s]);
  }

  // ---------------------------------------------------------------- one AC symbol

  /** The table has the symbol, and for long runs the code ZRL (0xF0). */
  predicate HasAc(t: HuffmanTable, symbol: int)
    requires t.Shape()
  {
    if symbol > 255 then 0xF0 in Symbols(t) && HasAc(t, symbol - 256) else symbol in Symbols(t)
  }

  lemma DecodeSymbolBits(t: HuffmanTable, c: CodeTable, s: Byte, e: uint64, rest: Bits)
    requires TableOf(t, c) && s in Symbols(t) && e < Pow2(NumExtraBits(s))
    ensures CanEmit(c, s, e)
    ensures DecodeSymbol(t, CodeBits(c, s, e) + rest) == Got(s, Low(e, NumExtraBits(s)) + rest)
  {
    var p :| 0 <= p < t.Total() && t.huffval[p] == s;
    CodeBitsOfSymbol(t, c, p, e);
    hide *;
    var w, x := Word(t.Sizes(), p), Low(e, NumExtraBits(s));
    DecodeWord(t, p, x + rest);
    Associate(w, x, rest);
  }

  lemma ReadExtraBits(e: nat, n: nat, rest: Bits)
    requires e < Pow2(n)
    ensures ReadBits(Low(e, n) + rest, n) == Got(e, rest)
  {
    ValueOfLow(e, n);
    assert (Low(e, n) + rest)[..n] == Low(e, n) && (Low(e, n) + rest)[n..] == rest;
  }

  /** What the decoder does with a run of zeros and a coefficient of size n. */
  function AfterRun(t: HuffmanTable, k: nat, run: nat, coeffs: Block, v: int, n: nat, rest: Bits): Decoded<Block>
    requires Valid(t) && k + run <= 63
  {
    if n >= DC_ALPHABET_SIZE then Fail else DecodeAc(t, k + run + 1, coeffs[k + run := v], rest)
  }

  lemma ZeroRun(t: HuffmanTable, c: CodeTable, k: nat, coeffs: Block, rest: Bits)
    requires TableOf(t, c) && 0xF0 in Symbols(t) && k + 16 <= 64
    ensures CanEmit(c, 0xF0, 0) && DecodeAc(t, k, coeffs, CodeBits(c, 0xF0, 0) + rest) == DecodeAc(t, k + 16, coeffs, rest)
  {
    assert NumExtraBits(0xF0) == 0 && Low(0, 0) == [] && Pow2(0) == 1;
    DecodeSymbolBits(t, c, 0xF0, 0, rest);
    assert [] + rest == rest;
  }

  lemma ExtraOfRun(run: nat, n: nat)
    requires run <= 15 && 1 <= n <= 15
    ensures NumExtraBits(16 * run + n) == n && (16 * run + n) / 16 == run && (16 * run + n) % 16 == n
  {
  }

  lemma TableIsValid(t: HuffmanTable, c: CodeTable)
    requires TableOf(t, c)
    ensures Valid(t)
  {
  }

  lemma AfterRunIs(t: HuffmanTable, k: nat, run: nat, coeffs: Block, v: int, n: nat, rest: Bits)
    requires Valid(t) && k + run <= 63
    ensures AfterRun(t, k, run, coeffs, v, n, rest)
         == if n >= DC_ALPHABET_SIZE then Fail else DecodeAc(t, k + run + 1, coeffs[k + run := v], rest)
  {
  }

  lemma ShortRun(t: HuffmanTable, c: CodeTable, k: nat, coeffs: Block, run: nat, n: nat, e: uint64, rest: Bits)
    requires TableOf(t, c) && k + run <= 63 && run <= 15 && 1 <= n <= 15 && e < Pow2(n)
    requires 16 * run + n in Symbols(t)
    ensures CanEmit(c, 16 * run + n, e)
    ensures DecodeAc(t, k, coeffs, CodeBits(c, 16 * run + n, e) + rest) == AfterRun(t, k, run, coeffs, HuffExtend(e, n), n, rest)
  {
    ExtraOfRun(run, n);
    DecodeSymbolBits(t, c, 16 * run + n, e, rest);
    ReadExtraBits(e, n, rest);
    hide *;
    TableIsValid(t, c);
    AcStep(t, k, coeffs, CodeBits(c, 16 * run + n, e) + rest, 16 * run + n, Low(e, n) + rest, e, rest);
    AfterRunIs(t, k, run, coeffs, HuffExtend(e, n), n, rest);
  }

  /** A symbol 16 * run + n reads back as its run and its coefficient, however long the run. */
  lemma {:induction false} DecodeRun(t: HuffmanTable, c: CodeTable, k: nat, coeffs: Block, run: nat, n: nat, e: uint64, rest: Bits)
    requires TableOf(t, c) && k + run <= 63 && 1 <= n <= 15 && e < Pow2(n) && HasAc(t, 16 * run + n)
    ensures CanEmitAc(c, 16 * run + n, e)
    ensures DecodeAc(t, k, coeffs, AcBits(c, 16 * run + n, e) + rest) == AfterRun(t, k, run, coeffs, HuffExtend(e, n), n, rest)
    decreases run
  {
    hide DecodeAc, CanEmit, CodeBits, TableOf, HuffExtend, Pow2;
    if run <= 15 {
      ShortRun(t, c, k, coeffs, run, n, e, rest);
    } else {
      DecodeRun(t, c, k + 16, coeffs, run - 16, n, e, rest);
      var tail := AcBits(c, 16 * (run - 16) + n, e);
      ZeroRun(t, c, k, coeffs, tail + rest);
      Associate(CodeBits(c, 0xF0, 0), tail, rest);
    }
  }

  lemma EndOfBlock(t: HuffmanTable, c: CodeTable, k: nat, coeffs: Block, rest: Bits)
    requires TableOf(t, c) && 0 in Symbols(t) && k <= 63
    ensures CanEmit(c, 0, 0) && DecodeAc(t, k, coeffs, CodeBits(c, 0, 0) + rest) == Got(coeffs, rest)
  {
    assert NumExtraBits(0) == 0 && Low(0, 0) == [] && Pow2(0) == 1;
    DecodeSymbolBits(t, c, 0, 0, rest);
    assert [] + rest == rest;
  }
}
