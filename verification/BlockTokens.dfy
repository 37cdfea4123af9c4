/** The tokens of a block of a sequential scan (ComputeTokensForBlock in lib/jpegli/entropy_coding-inl.h): written
    with the code tables of their contexts, they are the bits of the block. */
module BlockTokens {
  import opened Arithmetic
  import opened BitStrings
  import opened BitWriter
  import opened HuffmanCode
  import opened ScanWriter
  import opened BlockCoding
  import opened BlockSymbols
  import opened BlockDecoding
  import opened BlockRoundTrip
  import opened PredictedBlocks

  /** Values whose negation is also of the type of coefficients. */
  predicate Narrow(b: Block) {
    forall k :: 0 <= k < 64 ==> Abs(b[k]) < 0x8000
  }

  lemma NarrowSize(b: Block, i: nat)
    requires Narrow(b) && i < |Positions(b)|
    ensures Size(b, i) <= 15 && Pow2(Size(b, i)) <= 0x8000
  {
    BitLengthOfSmall(Abs(b[Positions(b)[i]]), 15);
    Pow2Mono(Size(b, i), 15);
    Pow2Sum(7, 8);
    Pow2Small();
  }

  /** The extra bits of a coded position. */
  function TokenExtra(b: Block, i: nat): (e: uint64)
    requires Narrow(b) && i < |Positions(b)|
  {
    NarrowSize(b, i);
    ExtraBits(b[Positions(b)[i]], Size(b, i))
  }

  /** A run of zeros and a coefficient: one ZRL token for every 16 zeros. */
  function RunTokens(context: nat, run: nat, size: nat, extra: uint64): seq<Token> {
    if run > 15 then [Token(context, 0xF0, 0)] + RunTokens(context, run - 16, size, extra)
    else [Token(context, 16 * run + size, extra)]
  }

  /** The tokens from the i-th coded position on, and the end of the block. */
  function TailTokens(b: Block, i: nat, context: nat): seq<Token>
    requires Narrow(b) && 1 <= i <= |Positions(b)|
    decreases |Positions(b)| - i
  {
    if i == |Positions(b)| then (if EmitEob(b) then [Token(context, 0, 0)] else [])
    else RunTokens(context, Run(b, i), Size(b, i), TokenExtra(b, i)) + TailTokens(b, i + 1, context)
  }

  function TokensOfBlock(b: Block, dcContext: nat, acContext: nat): seq<Token>
    requires Narrow(b)
  {
    [Token(dcContext, Size(b, 0), TokenExtra(b, 0))] + TailTokens(b, 1, acContext)
  }

  // ---------------------------------------------------------------- their number

  lemma {:induction false} RunTokensFew(context: nat, run: nat, size: nat, extra: uint64)
    ensures 1 <= |RunTokens(context, run, size, extra)| <= run + 1
  {
    if run > 15 {
      RunTokensFew(context, run - 16, size, extra);
    }
  }

  lemma {:induction false} TailTokensFew(b: Block, i: nat, context: nat)
    requires Narrow(b) && 1 <= i <= |Positions(b)|
    ensures |TailTokens(b, i, context)| <= 63 - Positions(b)[i - 1]
    decreases |Positions(b)| - i
  {
    hide Positions;
    if i < |Positions(b)| {
      PositionOrder(b, i);
      RunTokensFew(context, Run(b, i), Size(b, i), TokenExtra(b, i));
      TailTokensFew(b, i + 1, context);
    }
  }

  /** No block has more tokens than coefficients, which is what the token arrays have room for. */
  lemma AtMost64Tokens(b: Block, dcContext: nat, acContext: nat)
    requires Narrow(b)
    ensures 1 <= |TokensOfBlock(b, dcContext, acContext)| <= 64
  {
    TailTokensFew(b, 1, acContext);
  }

  // ---------------------------------------------------------------- their bits

  /** The bits of tokens in a row. */
  function BitsOfTokens(coding: Coding, tokens: seq<Token>): Bits
    requires Writable(coding, tokens)
  {
    Concat(ScanItems(coding, tokens))
  }

  lemma {:induction false} ConcatSum<T>(a: seq<seq<T>>, b: seq<seq<T>>)
    ensures Concat(a + b) == Concat(a) + Concat(b)
  {
    ConcatLast(b);
    ConcatLast(a + b);
    hide Concat;
    if b == [] {
      assert a + b == a && Concat(a) + [] == Concat(a);
    } else {
      var init := b[..|b| - 1];
      assert (a + b)[..|a + b| - 1] == a + init;
      ConcatSum(a, init);
      Associate(Concat(a), Concat(init), b[|b| - 1]);
    }
  }

  lemma ConcatLast<T>(parts: seq<seq<T>>)
    ensures Concat(parts) == if parts == [] then [] else Concat(parts[..|parts| - 1]) + parts[|parts| - 1]
  {
  }

  lemma BitsOfSum(coding: Coding, a: seq<Token>, b: seq<Token>)
    requires Writable(coding, a) && Writable(coding, b)
    ensures Writable(coding, a + b) && BitsOfTokens(coding, a + b) == BitsOfTokens(coding, a) + BitsOfTokens(coding, b)
  {
    assert ScanItems(coding, a + b) == ScanItems(coding, a) + ScanItems(coding, b);
    ConcatSum(ScanItems(coding, a), ScanItems(coding, b));
  }

  /** The context has this code table. */
  predicate HasTable(coding: Coding, context: nat, c: CodeTable) {
    context < |coding.contextMap| && coding.contextMap[context] < |coding.tables| && coding.tables[coding.contextMap[context]] == c
  }

  lemma BitsOfOne(coding: Coding, t: Token, c: CodeTable)
    requires HasTable(coding, t.context, c) && CanEmit(c, t.symbol, t.bits)
    ensures Writable(coding, [t]) && BitsOfTokens(coding, [t]) == CodeBits(c, t.symbol, t.bits)
  {
    var items := ScanItems(coding, [t]);
    assert items == [coding.TokenBits(t)];
    assert Concat(items) == Concat(items[..0]) + items[0];
  }

  lemma {:induction false} BitsOfRun(coding: Coding, context: nat, t: HuffmanTable, c: CodeTable, run: nat, size: nat, extra: uint64)
    requires HasTable(coding, context, c) && TableOf(t, c) && size <= 15 && extra < Pow2(size)
    ensures CanEmitAc(c, 16 * run + size, extra)
    ensures var tokens := RunTokens(context, run, size, extra);
            Writable(coding, tokens) && BitsOfTokens(coding, tokens) == AcBits(c, 16 * run + size, extra)
  {
    hide TableOf, CanEmit, CodeBits, BitsOfTokens, Writable, Pow2, HasTable;
    CanEmitAnyAc(t, c, run, size, extra);
    if run > 15 {
      BitsOfRun(coding, context, t, c, run - 16, size, extra);
      BitsOfOne(coding, Token(context, 0xF0, 0), c);
      BitsOfSum(coding, [Token(context, 0xF0, 0)], RunTokens(context, run - 16, size, extra));
    } else {
      BitsOfOne(coding, Token(context, 16 * run + size, extra), c);
    }
  }

  /** The size computation of the tokens is the one of the other encoder, on the coefficients that it can handle. */
  lemma SameExtra(b: Block, i: nat)
    requires Narrow(b) && InRange(b) && i < |Positions(b)|
    ensures TokenExtra(b, i) == ExtraAt(b, i) < Pow2(Size(b, i)) && Size(b, i) <= 12
    ensures SymbolAt(b, i) == (if i == 0 then 0 else 16 * Run(b, i)) + Size(b, i)
  {
    hide NumBits, ExtraBits, Pow2, Positions, BitLength;
    SizeOf(b[Positions(b)[i]]);
    if i == 0 {
      DcSymbol(b);
    } else {
      AcSymbol(b, i);
    }
  }

  lemma {:induction false} BitsOfTail(coding: Coding, context: nat, b: Block, i: nat, dcT: HuffmanTable, acT: HuffmanTable, dc: CodeTable, ac: CodeTable)
    requires Narrow(b) && InRange(b) && 1 <= i <= |Positions(b)| && TableOf(dcT, dc) && TableOf(acT, ac) && HasTable(coding, context, ac)
    requires CanWriteBlock(SymbolsOf(b), ExtrasOf(b), |Positions(b)|, dc, ac)
    ensures var tokens := TailTokens(b, i, context);
            Writable(coding, tokens)
            && BitsOfTokens(coding, tokens) == AcTail(SymbolsOf(b), ExtrasOf(b), i, |Positions(b)|, EmitEob(b), dc, ac)
    decreases |Positions(b)| - i
  {
    hide TableOf, CanEmit, CodeBits, BitsOfTokens, Writable, Pow2, HasTable, Positions, SymbolAt, ExtraAt, TokenExtra, Size, Run, EmitEob, RunTokens;
    if i < |Positions(b)| {
      SameExtra(b, i);
      BitsOfRun(coding, context, acT, ac, Run(b, i), Size(b, i), TokenExtra(b, i));
      BitsOfTail(coding, context, b, i + 1, dcT, acT, dc, ac);
      BitsOfSum(coding, RunTokens(context, Run(b, i), Size(b, i), TokenExtra(b, i)), TailTokens(b, i + 1, context));
    } else if EmitEob(b) {
      BitsOfOne(coding, Token(context, 0, 0), ac);
    } else {
      BitsOfNone(coding);
    }
  }

  lemma BitsOfNone(coding: Coding)
    ensures Writable(coding, []) && BitsOfTokens(coding, []) == []
  {
  }

  /** The tokens of a block carry its bits. */
  lemma TokensCarryBits(coding: Coding, dcContext: nat, acContext: nat, b: Block, dcT: HuffmanTable, acT: HuffmanTable, dc: CodeTable, ac: CodeTable)
    requires Narrow(b) && InRange(b) && TableOf(dcT, dc) && TableOf(acT, ac)
    requires HasTable(coding, dcContext, dc) && HasTable(coding, acContext, ac)
    ensures var tokens := TokensOfBlock(b, dcContext, acContext);
            Writable(coding, tokens) && BitsOfTokens(coding, tokens) == BitsOfBlock(b, dcT, acT, dc, ac)
  {
    hide TableOf, CanEmit, CodeBits, BitsOfTokens, Writable, Pow2, HasTable, Positions, SymbolAt, ExtraAt, TokenExtra, Size, EmitEob, TailTokens, AcTail;
    CanWriteIt(b, dcT, acT, dc, ac);
    SameExtra(b, 0);
    BitsOfOne(coding, Token(dcContext, Size(b, 0), TokenExtra(b, 0)), dc);
    BitsOfTail(coding, acContext, b, 1, dcT, acT, dc, ac);
    BitsOfSum(coding, [Token(dcContext, Size(b, 0), TokenExtra(b, 0))], TailTokens(b, 1, acContext));
  }

  // ---------------------------------------------------------------- their codes

  /** Every token has a code. */
  predicate AllCoded(coding: Coding, tokens: seq<Token>) {
    forall i :: 0 <= i < |tokens| ==> coding.Knows(tokens[i]) && coding.Depth(tokens[i]) != 0
  }

  lemma CodedSum(coding: Coding, a: seq<Token>, b: seq<Token>)
    ensures AllCoded(coding, a + b) <==> AllCoded(coding, a) && AllCoded(coding, b)
  {
    if AllCoded(coding, a + b) {
      assert forall i :: 0 <= i < |a| ==> a[i] == (a + b)[i];
      assert forall i :: 0 <= i < |b| ==> b[i] == (a + b)[|a| + i];
    }
  }

  lemma OneIsCoded(coding: Coding, context: nat, t: HuffmanTable, c: CodeTable, s: Byte, e: uint64)
    requires HasTable(coding, context, c) && TableOf(t, c) && e < Pow2(NumExtraBits(s))
    ensures s in Symbols(t) <==> AllCoded(coding, [Token(context, s, e)])
  {
    CanEmitAny(t, c, s, e);
    hide TableOf, CanEmit, Pow2;
    assert [Token(context, s, e)][0] == Token(context, s, e);
  }

  lemma {:induction false} RunIsCoded(coding: Coding, context: nat, t: HuffmanTable, c: CodeTable, run: nat, size: nat, extra: uint64)
    requires HasTable(coding, context, c) && TableOf(t, c) && t.Shape() && size <= 15 && extra < Pow2(size)
    ensures HasAc(t, 16 * run + size) <==> AllCoded(coding, RunTokens(context, run, size, extra))
  {
    hide TableOf, AllCoded, HasTable, Pow2, Symbols;
    if run > 15 {
      RunIsCoded(coding, context, t, c, run - 16, size, extra);
      PowZero();
      OneIsCoded(coding, context, t, c, 0xF0, 0);
      CodedSum(coding, [Token(context, 0xF0, 0)], RunTokens(context, run - 16, size, extra));
    } else {
      ExtraRoom(run, size, extra);
      OneIsCoded(coding, context, t, c, 16 * run + size, extra);
    }
  }

  lemma {:induction false} TailIsCoded(coding: Coding, context: nat, b: Block, i: nat, t: HuffmanTable, c: CodeTable)
    requires Narrow(b) && InRange(b) && 1 <= i <= |Positions(b)| && TableOf(t, c) && HasTable(coding, context, c)
    ensures t.Shape() && (HasTail(b, i, t) <==> AllCoded(coding, TailTokens(b, i, context)))
    decreases |Positions(b)| - i
  {
    hide CanEmit, Pow2, HasTable, Positions, SymbolAt, ExtraAt, TokenExtra, Size, Run, EmitEob, RunTokens, AllCoded, HasAc;
    if i < |Positions(b)| {
      SameExtra(b, i);
      HasTailStep(b, i, t);
      hide HasTail, TableOf;
      RunIsCoded(coding, context, t, c, Run(b, i), Size(b, i), TokenExtra(b, i));
      TailIsCoded(coding, context, b, i + 1, t, c);
      CodedSum(coding, RunTokens(context, Run(b, i), Size(b, i), TokenExtra(b, i)), TailTokens(b, i + 1, context));
    } else {
      PowZero();
      ExtraOfSize(0);
      NoneIsCoded(coding);
      OneIsCoded(coding, context, t, c, 0, 0);
    }
  }

  lemma NoneIsCoded(coding: Coding)
    ensures AllCoded(coding, [])
  {
  }

  /** The tokens of a block have codes exactly if the tables have the symbols of the block. */
  lemma BlockIsCoded(coding: Coding, dcContext: nat, acContext: nat, b: Block, dcT: HuffmanTable, acT: HuffmanTable, dc: CodeTable, ac: CodeTable)
    requires Narrow(b) && InRange(b) && TableOf(dcT, dc) && TableOf(acT, ac)
    requires HasTable(coding, dcContext, dc) && HasTable(coding, acContext, ac)
    ensures Codable(b, dcT, acT) <==> AllCoded(coding, TokensOfBlock(b, dcContext, acContext))
  {
    hide CanEmit, Pow2, HasTable, Positions, SymbolAt, ExtraAt, TokenExtra, Size, EmitEob, TailTokens, AllCoded, HasTail;
    SameExtra(b, 0);
    ExtraOfSize(Size(b, 0));
    OneIsCoded(coding, dcContext, dcT, dc, Size(b, 0), TokenExtra(b, 0));
    TailIsCoded(coding, acContext, b, 1, acT, ac);
    CodedSum(coding, [Token(dcContext, Size(b, 0), TokenExtra(b, 0))], TailTokens(b, 1, acContext));
  }

  // ---------------------------------------------------------------- computing them

  method CountNonzeroAc(block: Block) returns (n: nat)
    ensures n + 1 == |Positions(block)|
  {
    n := 0;
    for k := 1 to 64
      invariant n + 1 == CountBelow(block, k)
    {
      if block[k] != 0 {
        n := n + 1;
      }
    }
    PositionsSplit(block, 64);
  }

  lemma SamePositions(b: Block, d: int)
    ensures Positions(WithDc(b, d)) == Positions(b)
  {
    SamePositionsFrom(b, d, 0);
  }

  lemma {:induction false} SamePositionsFrom(b: Block, d: int, k: nat)
    requires k <= 64
    ensures PositionsFrom(WithDc(b, d), k) == PositionsFrom(b, k)
    decreases 64 - k
  {
    if k < 64 {
      SamePositionsFrom(b, d, k + 1);
    }
  }

  /** The run before a coded position: zeros up to it, and a coefficient there. */
  lemma RunEnds(b: Block, i: nat, k: nat)
    requires 1 <= i < |Positions(b)| && Positions(b)[i - 1] < k <= Positions(b)[i]
    ensures Positions(b)[i] < 64 && (b[k] == 0 <==> k < Positions(b)[i]) && Run(b, i) == Positions(b)[i] - Positions(b)[i - 1] - 1
  {
    PositionOrder(b, i);
    if k < Positions(b)[i] {
      ZeroBetween(b, i, k);
    }
  }

  /** Zeros are skipped up to the next coded position. */
  method SkipZeros(block: Block, from: nat, ghost b: Block, ghost i: nat) returns (k: nat, r: nat)
    requires 1 <= i < |Positions(b)| && from == Positions(b)[i - 1] + 1 && b == WithDc(block, b[0])
    ensures k == Positions(b)[i] < 64 && r == Run(b, i) && block[k] == b[k]
  {
    hide Positions;
    PositionOrder(b, i);
    k, r := from, 0;
    while block[k] == 0
      invariant from <= k <= Positions(b)[i] && r == k - from
      decreases Positions(b)[i] - k
    {
      RunEnds(b, i, k);
      k, r := k + 1, r + 1;
    }
    RunEnds(b, i, k);
  }

  method EmitRun(before: seq<Token>, context: nat, run: nat, size: nat, extra: uint64) returns (tokens: seq<Token>)
    ensures tokens == before + RunTokens(context, run, size, extra)
  {
    tokens := before;
    var r: nat := run;
    while r > 15
      invariant tokens + RunTokens(context, r, size, extra) == before + RunTokens(context, run, size, extra)
    {
      Associate(tokens, [Token(context, 0xF0, 0)], RunTokens(context, r - 16, size, extra));
      tokens := tokens + [Token(context, 0xF0, 0)];
      r := r - 16;
    }
    tokens := tokens + [Token(context, 16 * r + size, extra)];
  }

  lemma NextTail(b: Block, i: nat, context: nat, before: seq<Token>)
    requires Narrow(b) && 1 <= i <= |Positions(b)|
    ensures i < |Positions(b)| ==>
      before + TailTokens(b, i, context)
        == before + RunTokens(context, Run(b, i), Size(b, i), TokenExtra(b, i)) + TailTokens(b, i + 1, context)
    ensures i == |Positions(b)| ==>
      before + TailTokens(b, i, context) == if Positions(b)[i - 1] < 63 then before + [Token(context, 0, 0)] else before
  {
    hide Positions;
    if i < |Positions(b)| {
      Associate(before, RunTokens(context, Run(b, i), Size(b, i), TokenExtra(b, i)), TailTokens(b, i + 1, context));
    }
  }

  /** The tokens of a block in zigzag order; the DC coefficient is predicted. */
  method ComputeTokensForBlock(block: Block, lastDc: int, dcContext: nat, acContext: nat) returns (tokens: seq<Token>)
    requires Narrow(Residual(block, lastDc))
    ensures tokens == TokensOfBlock(Residual(block, lastDc), dcContext, acContext)
  {
    hide Positions, ExtraBits, BitLength, Narrow, Run, TailTokens, RunTokens, Pow2;
    ghost var b := Residual(block, lastDc);
    SamePositions(block, block[0] - lastDc);
    var temp := block[0] - lastDc;
    DcSize(b);
    NarrowSize(b, 0);
    if temp == 0 {
      tokens := [Token(dcContext, 0, 0)];
    } else {
      tokens := [Token(dcContext, BitLength(Abs(temp)), ExtraBits(temp, BitLength(Abs(temp))))];
    }
    ghost var i := 1;
    var numNonzeros := CountNonzeroAc(block);
    var k := 1;
    while k < 64
      invariant 1 <= i <= |Positions(b)| && numNonzeros == |Positions(b)| - i && k == Positions(b)[i - 1] + 1 <= 64
      invariant TokensOfBlock(b, dcContext, acContext) == tokens + TailTokens(b, i, acContext)
      decreases 64 - k
    {
      NextTail(b, i, acContext, tokens);
      if numNonzeros == 0 {
        tokens := tokens + [Token(acContext, 0, 0)];
        return;
      }
      PositionOrder(b, i);
      var r;
      k, r := SkipZeros(block, k, b, i);
      numNonzeros := numNonzeros - 1;
      temp := block[k];
      NarrowSize(b, i);
      tokens := EmitRun(tokens, acContext, r, BitLength(Abs(temp)), ExtraBits(temp, BitLength(Abs(temp))));
      i, k := i + 1, k + 1;
    }
    NoneBehind(b, i);
    NextTail(b, i, acContext, tokens);
  }

  lemma NoneBehind(b: Block, i: nat)
    requires 1 <= i <= |Positions(b)| && Positions(b)[i - 1] == 63
    ensures i == |Positions(b)|
  {
    if i < |Positions(b)| {
      PositionOrder(b, i);
    }
  }

  lemma DcSize(b: Block)
    requires Narrow(b)
    ensures Positions(b)[0] == 0 && Size(b, 0) == BitLength(Abs(b[0])) && TokenExtra(b, 0) == ExtraBits(b[0], BitLength(Abs(b[0])))
    ensures b[0] == 0 ==> Size(b, 0) == 0 && TokenExtra(b, 0) == 0
  {
    PowZero();
  }
}
