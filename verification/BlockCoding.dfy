/**
 Sequential coding of one 8x8 block: from quantized coefficients (in zigzag order, the first one
 a DC difference) to the bits of the entropy-coded segment, and back as sections F.2.2.1 and
 F.2.2.2 of ITU-T T.81 read them.
 */
module BlockCoding {
  import opened Arithmetic
  import opened BitStrings
  import opened BitWriter
  import opened HuffmanCode
  import opened ScanWriter

  // ---------------------------------------------------------------- writing a block

  predicate CanEmit(c: CodeTable, symbol: int, extra: int) {
    && c.WellFormed() && 0 <= symbol < 256 && 0 <= extra < WORD && c.depth[symbol] <= 63
    && (c.depth[symbol] > 0 ==> OrWord(c.code[symbol], extra) < Pow2(c.depth[symbol]))
  }

  function CodeBits(c: CodeTable, symbol: int, extra: int): Bits
    requires CanEmit(c, symbol, extra)
  {
    Low(OrWord(c.code[symbol], extra), c.depth[symbol])
  }

  /** An AC symbol 16 * run + size, run <= 63: runs above 15 are cut into ZRL codes. */
  predicate CanEmitAc(c: CodeTable, symbol: int, extra: int) {
    if symbol > 255 then CanEmit(c, 0xF0, 0) && CanEmitAc(c, symbol - 256, extra)
    else CanEmit(c, symbol, extra)
  }

  function AcBits(c: CodeTable, symbol: int, extra: int): Bits
    requires CanEmitAc(c, symbol, extra)
  {
    if symbol > 255 then CodeBits(c, 0xF0, 0) + AcBits(c, symbol - 256, extra)
    else CodeBits(c, symbol, extra)
  }

  predicate AcKnown(c: CodeTable, symbol: int)
    requires c.WellFormed() && symbol >= 0
  {
    if symbol > 255 then c.depth[0xF0] != 0 && AcKnown(c, symbol - 256) else c.depth[symbol] != 0
  }

  predicate CanWriteBlock(symbols: seq<int>, extraBits: seq<int>, n: nat, dc: CodeTable, ac: CodeTable) {
    && 1 <= n <= |symbols| && n <= |extraBits|
    && CanEmit(dc, symbols[0], extraBits[0])
    && (forall i :: 1 <= i < n ==> 0 <= symbols[i] < 1024 && CanEmitAc(ac, symbols[i], extraBits[i]))
    && CanEmit(ac, 0, 0) && CanEmit(ac, 0xF0, 0)
  }

  /** The AC symbols from i on, and the end-of-block symbol. */
  function AcTail(symbols: seq<int>, extraBits: seq<int>, i: nat, n: nat, emitEob: bool, dc: CodeTable, ac: CodeTable): Bits
    requires CanWriteBlock(symbols, extraBits, n, dc, ac) && 1 <= i <= n
    decreases n - i
  {
    if i == n then (if emitEob then CodeBits(ac, 0, 0) else [])
    else AcBits(ac, symbols[i], extraBits[i]) + AcTail(symbols, extraBits, i + 1, n, emitEob, dc, ac)
  }

  function BlockBits(symbols: seq<int>, extraBits: seq<int>, n: nat, emitEob: bool, dc: CodeTable, ac: CodeTable): Bits
    requires CanWriteBlock(symbols, extraBits, n, dc, ac)
  {
    CodeBits(dc, symbols[0], extraBits[0]) + AcTail(symbols, extraBits, 1, n, emitEob, dc, ac)
  }

  predicate TailKnown(symbols: seq<int>, i: nat, n: nat, emitEob: bool, ac: CodeTable)
    requires ac.WellFormed() && i <= n <= |symbols| && forall j :: i <= j < n ==> symbols[j] >= 0
    decreases n - i
  {
    if i == n then (emitEob ==> ac.depth[0] != 0)
    else AcKnown(ac, symbols[i]) && TailKnown(symbols, i + 1, n, emitEob, ac)
  }

  method WriteSymbol(bw: JpegBitWriter, c: CodeTable, symbol: int, extra: int)
    requires bw.Valid() && CanEmit(c, symbol, extra)
    modifies bw
    ensures bw.Valid() && bw.base == old(bw.base)
    ensures bw.Bits() == old(bw.Bits()) + CodeBits(c, symbol, extra)
    ensures bw.healthy <==> old(bw.healthy) && c.depth[symbol] != 0
  {
    bw.WriteBits(c.depth[symbol], OrWord(c.code[symbol], extra));
  }

  /** A symbol without extra bits. */
  method WriteCode(bw: JpegBitWriter, c: CodeTable, symbol: int)
    requires bw.Valid() && CanEmit(c, symbol, 0)
    modifies bw
    ensures bw.Valid() && bw.base == old(bw.base)
    ensures bw.Bits() == old(bw.Bits()) + CodeBits(c, symbol, 0)
    ensures bw.healthy <==> old(bw.healthy) && c.depth[symbol] != 0
  {
    OrWithZero(c.code[symbol]);
    bw.WriteBits(c.depth[symbol], c.code[symbol]);
  }

  lemma OrWithZero(x: uint64)
    ensures OrWord(x, 0) == x
  {
    Pow2Of64();
    OrZero(x, 64);
  }

  lemma {:induction false} OrZero(x: nat, w: nat)
    requires x < Pow2(w)
    ensures Or(x, 0, w) == x
  {
    if w > 0 {
      OrZero(x / 2, w - 1);
    }
  }

  /** One AC symbol with its extra bits. The source unrolls the loop three times. */
  method WriteAcSymbol(bw: JpegBitWriter, ac: CodeTable, acSymbol: int, extra: int)
    requires bw.Valid() && 0 <= acSymbol < 1024 && CanEmitAc(ac, acSymbol, extra) && CanEmit(ac, 0xF0, 0)
    modifies bw
    ensures bw.Valid() && bw.base == old(bw.base)
    ensures bw.Bits() == old(bw.Bits()) + AcBits(ac, acSymbol, extra)
    ensures bw.healthy <==> old(bw.healthy) && AcKnown(ac, acSymbol)
  {
    assert ac.WellFormed();
    hide CanEmit, CodeBits;
    var symbol := acSymbol;
    while symbol > 255
      invariant bw.Valid() && bw.base == old(bw.base) && 0 <= symbol <= acSymbol
      invariant CanEmitAc(ac, symbol, extra)
      invariant bw.Bits() + AcBits(ac, symbol, extra) == old(bw.Bits()) + AcBits(ac, acSymbol, extra)
      invariant bw.healthy && AcKnown(ac, symbol) <==> old(bw.healthy) && AcKnown(ac, acSymbol)
    {
      Associate(bw.Bits(), CodeBits(ac, 0xF0, 0), AcBits(ac, symbol - 256, extra));
      WriteCode(bw, ac, 0xF0);
      symbol := symbol - 256;
    }
    WriteSymbol(bw, ac, symbol, extra);
  }

  method WriteBlock(symbols: seq<int>, extraBits: seq<int>, numNonzeros: nat, emitEob: bool,
                    dcCode: CodeTable, acCode: CodeTable, bw: JpegBitWriter)
    requires bw.Valid() && CanWriteBlock(symbols, extraBits, numNonzeros, dcCode, acCode)
    modifies bw
    ensures bw.Valid() && bw.base == old(bw.base)
    ensures bw.Bits() == old(bw.Bits()) + BlockBits(symbols, extraBits, numNonzeros, emitEob, dcCode, acCode)
    ensures bw.healthy <==> old(bw.healthy) && dcCode.depth[symbols[0]] != 0
                            && TailKnown(symbols, 1, numNonzeros, emitEob, acCode)
  {
    assert dcCode.WellFormed() && acCode.WellFormed();
    hide CanEmit, CanEmitAc, CodeBits, AcBits, AcKnown;
    ghost var all := old(bw.Bits()) + BlockBits(symbols, extraBits, numNonzeros, emitEob, dcCode, acCode);
    Associate(bw.Bits(), CodeBits(dcCode, symbols[0], extraBits[0]),
              AcTail(symbols, extraBits, 1, numNonzeros, emitEob, dcCode, acCode));
    WriteSymbol(bw, dcCode, symbols[0], extraBits[0]);
    ghost var known := bw.healthy && TailKnown(symbols, 1, numNonzeros, emitEob, acCode);
    for i := 1 to numNonzeros
      invariant bw.Valid() && bw.base == old(bw.base)
      invariant bw.Bits() + AcTail(symbols, extraBits, i, numNonzeros, emitEob, dcCode, acCode) == all
      invariant bw.healthy && TailKnown(symbols, i, numNonzeros, emitEob, acCode) <==> known
    {
      Associate(bw.Bits(), AcBits(acCode, symbols[i], extraBits[i]),
                AcTail(symbols, extraBits, i + 1, numNonzeros, emitEob, dcCode, acCode));
      WriteAcSymbol(bw, acCode, symbols[i], extraBits[i]);
    }
    if emitEob {
      WriteCode(bw, acCode, 0);
    }
  }
}
