/** The round trip of a block: what the encoder writes for it, the decoder reads back. */
module BlockRoundTrip {
  import opened Arithmetic
  import opened BitStrings
  import opened BitWriter
  import opened BlockCoding
  import opened BlockDecoding
  import opened BlockSymbols
  import opened HuffmanCode
  import opened ScanWriter

  // ---------------------------------------------------------------- the symbols of a block

  /** The size computation of the encoder handles twelve bits. */
  predicate InRange(b: Block) {
    forall k :: 0 <= k < 64 ==> Abs(b[k]) < 4096
  }

  function Run(b: Block, i: nat): nat
    requires 1 <= i < |Positions(b)|
  {
    PositionsIncrease(b, 0);
    Positions(b)[i] - Positions(b)[i - 1] - 1
  }

  function Size(b: Block, i: nat): nat
    requires i < |Positions(b)|
  {
    BitLength(Abs(b[Positions(b)[i]]))
  }

  /** The symbol and the extra bits of a coded AC position. */
  lemma AcSymbol(b: Block, i: nat)
    requires InRange(b) && 1 <= i < |Positions(b)|
    ensures Positions(b)[i - 1] + 1 + Run(b, i) == Positions(b)[i]
    ensures 1 <= Size(b, i) <= 12 && Run(b, i) <= 62 && SymbolAt(b, i) == 16 * Run(b, i) + Size(b, i)
    ensures ExtraAt(b, i) < Pow2(Size(b, i)) && HuffExtend(ExtraAt(b, i), Size(b, i)) == b[Positions(b)[i]]
    ensures Size(b, i) >= DC_ALPHABET_SIZE <==> Abs(b[Positions(b)[i]]) >= 2048
  {
    hide NumBits, ExtraBits, Pow2, Positions, BitLength, HuffExtend;
    PositionOrder(b, i);
    SizeOf(b[Positions(b)[i]]);
    ExtendUndoesExtraBits(b[Positions(b)[i]]);
  }

  lemma PositionOrder(b: Block, i: nat)
    requires 1 <= i < |Positions(b)|
    ensures Positions(b)[i - 1] < Positions(b)[i] < 64 && b[Positions(b)[i]] != 0
  {
    PositionsIncrease(b, 0);
    hide PositionsFrom;
  }

  lemma SizeOf(c: int)
    requires Abs(c) < 4096
    ensures NumBits(Abs(c)) == BitLength(Abs(c)) <= 12 && (c != 0 ==> BitLength(Abs(c)) >= 1)
    ensures BitLength(Abs(c)) >= DC_ALPHABET_SIZE <==> Abs(c) >= 2048
  {
    NumBitsIsBitLength(Abs(c));
    BitLengthOfSmall(Abs(c), 11);
    Pow2Small();
  }

  lemma DcSymbol(b: Block)
    requires InRange(b)
    ensures SymbolAt(b, 0) == Size(b, 0) == BitLength(Abs(b[0])) <= 12
    ensures ExtraAt(b, 0) < Pow2(Size(b, 0))
    ensures if b[0] == 0 then Size(b, 0) == 0 && ExtraAt(b, 0) == 0
            else Size(b, 0) > 0 && HuffExtend(ExtraAt(b, 0), Size(b, 0)) == b[0]
    ensures Size(b, 0) >= DC_ALPHABET_SIZE <==> Abs(b[0]) >= 2048
  {
    hide NumBits, ExtraBits, PositionsFrom;
    SizeOf(b[0]);
    if b[0] != 0 {
      ExtendUndoesExtraBits(b[0]);
    } else {
      assert Pow2(0) == 1;
    }
  }

  function SymbolsOf(b: Block): (s: seq<int>)
    ensures |s| == |Positions(b)| && forall i :: 0 <= i < |s| ==> s[i] == SymbolAt(b, i)
  {
    seq(|Positions(b)|, i requires 0 <= i < |Positions(b)| => SymbolAt(b, i))
  }

  function ExtrasOf(b: Block): (s: seq<int>)
    ensures |s| == |Positions(b)| && forall i :: 0 <= i < |s| ==> s[i] == ExtraAt(b, i)
  {
    seq(|Positions(b)|, i requires 0 <= i < |Positions(b)| => ExtraAt(b, i))
  }

  /** The size category that is written, for any coefficient. */
  function SizeCode(b: Block, i: nat): nat
    requires i < |Positions(b)|
  {
    NumBitsIsBitLength(Abs(b[Positions(b)[i]]));
    NumBits(Abs(b[Positions(b)[i]]))
  }

  lemma SymbolParts(b: Block, i: nat)
    requires i < |Positions(b)|
    ensures SizeCode(b, i) <= 12 && ExtraAt(b, i) < Pow2(SizeCode(b, i)) <= 4096 < WORD
    ensures if i == 0 then SymbolAt(b, 0) == SizeCode(b, 0)
            else Run(b, i) <= 62 && SymbolAt(b, i) == 16 * Run(b, i) + SizeCode(b, i)
  {
    hide NumBits, ExtraBits, PositionsFrom;
    NumBitsIsBitLength(Abs(b[Positions(b)[i]]));
    Pow2Mono(SizeCode(b, i), 12);
    Pow2Small();
    if i > 0 {
      PositionOrder(b, i);
    } else {
      FirstPosition(b, 0);
    }
  }

  /** The encoder ends a block early if its last coded position is not the last position. */
  predicate EmitEob(b: Block) {
    16 * Positions(b)[|Positions(b)| - 1] < 1008
  }

  // ---------------------------------------------------------------- writing

  lemma CanEmitAny(t: HuffmanTable, c: CodeTable, s: Byte, e: uint64)
    requires TableOf(t, c) && e < Pow2(NumExtraBits(s))
    ensures CanEmit(c, s, e) && (c.depth[s] != 0 <==> s in Symbols(t))
  {
    if s in Symbols(t) {
      var p :| 0 <= p < t.Total() && t.huffval[p] == s;
      CodeBitsOfSymbol(t, c, p, e);
      assert Coded(t, c.depth, c.code, p);
    } else {
      assert c.depth[s] == 0;
    }
  }

  lemma ExtraRoom(run: nat, n: nat, e: nat)
    requires run <= 15 && n <= 15 && e < Pow2(n)
    ensures 16 * run + n < 256 && e < Pow2(NumExtraBits(16 * run + n))
  {
    hide Pow2;
    assert n > 0 ==> NumExtraBits(16 * run + n) == n;
    Pow2Mono(n, NumExtraBits(16 * run + n));
  }

  lemma {:induction false} CanEmitAnyAc(t: HuffmanTable, c: CodeTable, run: nat, n: nat, e: uint64)
    requires TableOf(t, c) && n <= 15 && e < Pow2(n)
    ensures CanEmitAc(c, 16 * run + n, e) && (AcKnown(c, 16 * run + n) <==> HasAc(t, 16 * run + n))
  {
    if run <= 15 {
      ExtraRoom(run, n, e);
      CanEmitAny(t, c, 16 * run + n, e);
    } else {
      assert NumExtraBits(0xF0) == 0 && Pow2(0) == 1;
      CanEmitAny(t, c, 0xF0, 0);
      CanEmitAnyAc(t, c, run - 16, n, e);
    }
  }

  lemma CanWriteIt(b: Block, dcT: HuffmanTable, acT: HuffmanTable, dc: CodeTable, ac: CodeTable)
    requires TableOf(dcT, dc) && TableOf(acT, ac)
    ensures CanWriteBlock(SymbolsOf(b), ExtrasOf(b), |Positions(b)|, dc, ac)
  {
    hide CanEmit, CanEmitAc, TableOf, Positions, SymbolAt, ExtraAt, SizeCode, Run, Pow2;
    SymbolParts(b, 0);
    ExtraOfSize(SizeCode(b, 0));
    CanEmitAny(dcT, dc, SizeCode(b, 0), ExtrasOf(b)[0]);
    forall i | 1 <= i < |Positions(b)|
      ensures 0 <= SymbolsOf(b)[i] < 1024 && CanEmitAc(ac, SymbolsOf(b)[i], ExtrasOf(b)[i])
    {
      SymbolParts(b, i);
      CanEmitAnyAc(acT, ac, Run(b, i), SizeCode(b, i), ExtrasOf(b)[i]);
    }
    assert NumExtraBits(0) == 0 && NumExtraBits(0xF0) == 0;
    PowZero();
    CanEmitAny(acT, ac, 0, 0);
    CanEmitAny(acT, ac, 0xF0, 0);
  }

  lemma PowZero()
    ensures Pow2(0) == 1
  {
  }

  /** The bits of a block. */
  function BitsOfBlock(b: Block, dcT: HuffmanTable, acT: HuffmanTable, dc: CodeTable, ac: CodeTable): Bits
    requires TableOf(dcT, dc) && TableOf(acT, ac)
  {
    CanWriteIt(b, dcT, acT, dc, ac);
    BlockBits(SymbolsOf(b), ExtrasOf(b), |Positions(b)|, EmitEob(b), dc, ac)
  }

  /** The tables have every symbol that the block needs. */
  predicate Codable(b: Block, dcT: HuffmanTable, acT: HuffmanTable)
    requires dcT.Shape() && acT.Shape()
  {
    SymbolAt(b, 0) in Symbols(dcT) && HasTail(b, 1, acT)
  }

  // ---------------------------------------------------------------- reading back

  lemma {:induction false} CodedIsListed(b: Block, k: nat, j: nat) returns (i: nat)
    requires k <= j < 64 && (j == 0 || b[j] != 0)
    ensures i < |PositionsFrom(b, k)| && PositionsFrom(b, k)[i] == j
    decreases j - k
  {
    if k == j {
      i := 0;
    } else {
      i := CodedIsListed(b, k + 1, j);
      i := if k == 0 || b[k] != 0 then i + 1 else i;
    }
  }

  /** Between two coded positions, and after the last one, a block is zero. */
  lemma ZeroBetween(b: Block, i: nat, j: nat)
    requires 1 <= i <= |Positions(b)| && Positions(b)[i - 1] < j < 64
    requires i < |Positions(b)| ==> j < Positions(b)[i]
    ensures b[j] == 0
  {
    if b[j] != 0 {
      var m := CodedIsListed(b, 0, j);
      PositionsIncrease(b, 0);
      OrderAt(Positions(b), m, i);
    }
  }

  lemma OrderAt(ps: seq<nat>, m: nat, i: nat)
    requires forall x, y :: 0 <= x < y < |ps| ==> ps[x] < ps[y]
    requires 1 <= i <= |ps| && m < |ps|
    ensures if m < i then ps[m] <= ps[i - 1] else ps[i] <= ps[m]
  {
  }

  /** The block with its positions from k on cleared. */
  function Upto(b: Block, k: nat): Block {
    seq(64, j requires 0 <= j < 64 => if j < k then b[j] else 0)
  }

  lemma UptoNext(b: Block, i: nat)
    requires 1 <= i < |Positions(b)|
    ensures Positions(b)[i - 1] < Positions(b)[i]
    ensures Upto(b, Positions(b)[i] + 1) == Upto(b, Positions(b)[i - 1] + 1)[Positions(b)[i] := b[Positions(b)[i]]]
  {
    PositionsIncrease(b, 0);
    var x, y := Upto(b, Positions(b)[i] + 1), Upto(b, Positions(b)[i - 1] + 1)[Positions(b)[i] := b[Positions(b)[i]]];
    forall j | 0 <= j < 64
      ensures x[j] == y[j]
    {
      if Positions(b)[i - 1] < j < Positions(b)[i] {
        ZeroBetween(b, i, j);
      }
    }
  }

  lemma UptoLast(b: Block)
    ensures Upto(b, Positions(b)[|Positions(b)| - 1] + 1) == b
  {
    var x := Upto(b, Positions(b)[|Positions(b)| - 1] + 1);
    forall j | 0 <= j < 64
      ensures x[j] == b[j]
    {
      if Positions(b)[|Positions(b)| - 1] < j {
        ZeroBetween(b, |Positions(b)|, j);
      }
    }
  }

  /** The decoder accepts size categories up to eleven. */
  predicate SmallFrom(b: Block, i: nat) {
    forall j :: i <= j < |Positions(b)| ==> Abs(b[Positions(b)[j]]) < 2048
  }

  /** One coded AC position, read back. */
  lemma DecodePosition(b: Block, i: nat, t: HuffmanTable, c: CodeTable, rest: Bits)
    requires InRange(b) && TableOf(t, c) && 1 <= i < |Positions(b)| && HasAc(t, SymbolAt(b, i))
    ensures CanEmitAc(c, SymbolAt(b, i), ExtraAt(b, i))
    ensures DecodeAc(t, Positions(b)[i - 1] + 1, Upto(b, Positions(b)[i - 1] + 1), AcBits(c, SymbolAt(b, i), ExtraAt(b, i)) + rest)
         == if Abs(b[Positions(b)[i]]) >= 2048 then Fail
            else DecodeAc(t, Positions(b)[i] + 1, Upto(b, Positions(b)[i] + 1), rest)
  {
    hide *;
    AcSymbol(b, i);
    UptoNext(b, i);
    SymbolParts(b, i);
    var k := Positions(b)[i - 1] + 1;
    DecodeRunTo(t, c, k, Upto(b, k), Run(b, i), Size(b, i), ExtraAt(b, i), rest, SymbolAt(b, i), Positions(b)[i],
                b[Positions(b)[i]]);
  }

  lemma DecodeRunTo(t: HuffmanTable, c: CodeTable, k: nat, coeffs: Block, run: nat, n: nat, e: uint64, rest: Bits,
                    symbol: int, pos: nat, v: int)
    requires TableOf(t, c) && pos <= 63 && 1 <= n <= 15 && e < Pow2(n) && HasAc(t, symbol)
    requires symbol == 16 * run + n && pos == k + run && v == HuffExtend(e, n)
    ensures CanEmitAc(c, symbol, e)
    ensures DecodeAc(t, k, coeffs, AcBits(c, symbol, e) + rest)
         == if n >= DC_ALPHABET_SIZE then Fail else DecodeAc(t, pos + 1, coeffs[pos := v], rest)
  {
    hide DecodeAc, AcBits, TableOf, HasAc, Pow2, HuffExtend, CanEmitAc;
    DecodeRun(t, c, k, coeffs, run, n, e, rest);
  }

  lemma SmallStep(b: Block, i: nat)
    requires i < |Positions(b)|
    ensures SmallFrom(b, i) <==> Abs(b[Positions(b)[i]]) < 2048 && SmallFrom(b, i + 1)
  {
  }

  lemma LastPosition(b: Block)
    ensures EmitEob(b) <==> Positions(b)[|Positions(b)| - 1] + 1 <= 63
  {
    hide Positions;
  }

  lemma DecodeLast(b: Block, t: HuffmanTable, c: CodeTable, rest: Bits)
    requires TableOf(t, c) && (EmitEob(b) ==> 0 in Symbols(t)) && CanEmit(c, 0, 0)
    ensures DecodeAc(t, Positions(b)[|Positions(b)| - 1] + 1, Upto(b, Positions(b)[|Positions(b)| - 1] + 1),
                     (if EmitEob(b) then CodeBits(c, 0, 0) else []) + rest) == Got(b, rest)
  {
    UptoLast(b);
    LastPosition(b);
    hide Positions, Upto, EmitEob, CanEmit, CodeBits, DecodeAc, TableOf, Symbols;
    var k := Positions(b)[|Positions(b)| - 1] + 1;
    if EmitEob(b) {
      EndOfBlock(t, c, k, b, rest);
    } else {
      assert [] + rest == rest;
      TablesAreValid(t, c);
      AcEnds(t, k, b, rest);
    }
  }

  lemma {:induction false} DecodeTail(b: Block, i: nat, t: HuffmanTable, dc: CodeTable, ac: CodeTable, rest: Bits)
    requires InRange(b) && TableOf(t, ac) && (EmitEob(b) ==> 0 in Symbols(t))
    requires forall j :: 1 <= j < |Positions(b)| ==> HasAc(t, SymbolAt(b, j))
    requires 1 <= i <= |Positions(b)| && CanWriteBlock(SymbolsOf(b), ExtrasOf(b), |Positions(b)|, dc, ac)
    ensures DecodeAc(t, Positions(b)[i - 1] + 1, Upto(b, Positions(b)[i - 1] + 1),
                     AcTail(SymbolsOf(b), ExtrasOf(b), i, |Positions(b)|, EmitEob(b), dc, ac) + rest)
         == if SmallFrom(b, i) then Got(b, rest) else Fail
    decreases |Positions(b)| - i
  {
    hide DecodeAc, AcBits, Positions, SymbolAt, ExtraAt, TableOf, HasAc, Upto, CanEmit, CanEmitAc, EmitEob, SmallFrom, InRange;
    if i == |Positions(b)| {
      DecodeLast(b, t, ac, rest);
      SmallAtEnd(b);
    } else {
      DecodeTail(b, i + 1, t, dc, ac, rest);
      SmallStep(b, i);
      var tail := AcTail(SymbolsOf(b), ExtrasOf(b), i + 1, |Positions(b)|, EmitEob(b), dc, ac);
      DecodePosition(b, i, t, ac, tail + rest);
      Associate(AcBits(ac, SymbolsOf(b)[i], ExtrasOf(b)[i]), tail, rest);
    }
  }

  lemma SmallAtEnd(b: Block)
    ensures SmallFrom(b, |Positions(b)|)
  {
  }

  /** The blocks that the decoder accepts: size categories up to eleven. */
  predicate Decodable(b: Block) {
    forall k :: 0 <= k < 64 ==> Abs(b[k]) < 2048
  }

  lemma DecodableIsSmall(b: Block)
    ensures Decodable(b) <==> SmallFrom(b, 1) && Abs(b[0]) < 2048
  {
    PositionsIncrease(b, 0);
    FirstPosition(b, 0);
    hide PositionsFrom, Abs;
    if SmallFrom(b, 1) && Abs(b[0]) < 2048 {
      forall k | 0 <= k < 64
        ensures Abs(b[k]) < 2048
      {
        if k > 0 && b[k] != 0 {
          var i := CodedIsListed(b, 0, k);
          assert Positions(b)[i] == k;
          assert i != 0;
        } else if k > 0 {
          assert b[k] == 0;
          SmallZero();
        }
      }
    }
  }

  lemma SmallZero()
    ensures Abs(0) < 2048
  {
  }

  lemma DecodeDc(b: Block, t: HuffmanTable, c: CodeTable, rest: Bits)
    requires InRange(b) && TableOf(t, c) && SymbolAt(b, 0) in Symbols(t)
    ensures CanEmit(c, SymbolAt(b, 0), ExtraAt(b, 0))
    ensures DecodeSymbol(t, CodeBits(c, SymbolAt(b, 0), ExtraAt(b, 0)) + rest)
         == Got(Size(b, 0), Low(ExtraAt(b, 0), Size(b, 0)) + rest)
  {
    hide *;
    DcSymbol(b);
    SymbolParts(b, 0);
    ExtraOfSize(Size(b, 0));
    DecodeSymbolBits(t, c, Size(b, 0), ExtraAt(b, 0), rest);
  }

  lemma ExtraOfSize(n: nat)
    requires n <= 15
    ensures NumExtraBits(n) == n
  {
  }

  lemma UptoFirst(b: Block)
    ensures Upto(b, 1) == ZeroBlock()[0 := b[0]]
  {
  }

  /** Whatever the Huffman tables and whatever follows, the decoder reads back the block that was
      encoded, or rejects it, and it does the former exactly for the blocks within its limits. */
  lemma BlockRoundTrips(b: Block, dcT: HuffmanTable, acT: HuffmanTable, dc: CodeTable, ac: CodeTable, rest: Bits)
    requires InRange(b) && TableOf(dcT, dc) && TableOf(acT, ac) && Codable(b, dcT, acT)
    ensures DecodeBlock(dcT, acT, BitsOfBlock(b, dcT, acT, dc, ac) + rest) == if Decodable(b) then Got(b, rest) else Fail
  {
    hide *;
    var tail := BitsSplit(b, dcT, acT, dc, ac, rest);
    DcSymbol(b);
    DecodeDc(b, dcT, dc, tail + rest);
    ReadExtraBits(ExtraAt(b, 0), Size(b, 0), tail + rest);
    NoBits(ExtraAt(b, 0), tail + rest);
    UptoFirst(b);
    ZeroFirst();
    DecodableIsSmall(b);
    TablesAreValid(dcT, dc);
    TablesAreValid(acT, ac);
    DecodeFrom(dcT, acT, BitsOfBlock(b, dcT, acT, dc, ac) + rest, Size(b, 0), Low(ExtraAt(b, 0), Size(b, 0)) + (tail + rest),
               ExtraAt(b, 0), tail + rest, b[0]);
  }

  /** Nothing that the decoder accepts has a coefficient of 2048 or more. */
  lemma {:induction false} AcceptedAcIsSmall(ac: HuffmanTable, k: nat, coeffs: Block, bits: Bits)
    requires Valid(ac) && Decodable(coeffs)
    ensures DecodeAc(ac, k, coeffs, bits).Got? ==> Decodable(DecodeAc(ac, k, coeffs, bits).value)
    decreases 64 - k
  {
    hide DecodeSymbol, ReadBits, HuffExtend, Valid, Decodable;
    if k <= 63 && DecodeSymbol(ac, bits).Got? {
      var Got(sr, bits1) := DecodeSymbol(ac, bits);
      var r, s := sr / 16, sr % 16;
      if 0 < s < DC_ALPHABET_SIZE && k + r <= 63 && ReadBits(bits1, s).Got? {
        var Got(v, bits2) := ReadBits(bits1, s);
        ReadIsBelow(bits1, s);
        SmallPut(coeffs, k + r, v, s);
        AcceptedAcIsSmall(ac, k + r + 1, coeffs[k + r := HuffExtend(v, s)], bits2);
      } else if s == 0 && r == 15 {
        AcceptedAcIsSmall(ac, k + 16, coeffs, bits1);
      }
    }
  }

  lemma ReadIsBelow(bits: Bits, n: nat)
    ensures ReadBits(bits, n).Got? ==> ReadBits(bits, n).value < Pow2(n)
  {
  }

  lemma SmallPut(coeffs: Block, k: nat, v: nat, s: nat)
    requires Decodable(coeffs) && k < 64 && 0 < s < DC_ALPHABET_SIZE && v < Pow2(s)
    ensures Decodable(coeffs[k := HuffExtend(v, s)])
  {
    Pow2Mono(s, 11);
    Pow2Small();
    assert Pow2(s) == 2 * Pow2(s - 1);
  }

  lemma AcceptedIsSmall(dcT: HuffmanTable, acT: HuffmanTable, bits: Bits)
    requires Valid(dcT) && Valid(acT)
    ensures DecodeBlock(dcT, acT, bits).Got? ==> Decodable(DecodeBlock(dcT, acT, bits).value)
  {
    hide DecodeSymbol, DecodeAc, ReadBits, HuffExtend, Valid;
    assert Decodable(ZeroBlock());
    if DecodeSymbol(dcT, bits).Got? {
      var Got(s, bits1) := DecodeSymbol(dcT, bits);
      if s == 0 {
        AcceptedAcIsSmall(acT, 1, ZeroBlock(), bits1);
      } else if s < DC_ALPHABET_SIZE && ReadBits(bits1, s).Got? {
        var Got(v, bits2) := ReadBits(bits1, s);
        ReadIsBelow(bits1, s);
        SmallPut(ZeroBlock(), 0, v, s);
        AcceptedAcIsSmall(acT, 1, ZeroBlock()[0 := HuffExtend(v, s)], bits2);
      }
    }
  }

  /** For all blocks, those of larger coefficients included: the block is read back if and only if all
      coefficients are below 2048 in magnitude. */
  lemma BlockRoundTripsIff(b: Block, dcT: HuffmanTable, acT: HuffmanTable, dc: CodeTable, ac: CodeTable, rest: Bits)
    requires TableOf(dcT, dc) && TableOf(acT, ac) && Codable(b, dcT, acT)
    ensures DecodeBlock(dcT, acT, BitsOfBlock(b, dcT, acT, dc, ac) + rest) == Got(b, rest) <==> Decodable(b)
  {
    TablesAreValid(dcT, dc);
    TablesAreValid(acT, ac);
    hide DecodeBlock, BitsOfBlock, TableOf, Codable, Valid;
    if Decodable(b) {
      BlockRoundTrips(b, dcT, acT, dc, ac, rest);
    } else {
      AcceptedIsSmall(dcT, acT, BitsOfBlock(b, dcT, acT, dc, ac) + rest);
    }
  }

  lemma EvenQuotient(x: int, p: int, q: int)
    requires p > 0 && x == 2 * q * p
    ensures x / p % 2 == 0
  {
    DivModUnique(x, p, 2 * q, 0);
  }

  lemma TermOf4096(j: nat)
    requires 1 <= j <= 12
    ensures Term(4096, j) <= 0 && Term(0, j) <= 0 && (j == 1 ==> Term(4096, j) == Term(0, j) == 0)
  {
    assert Pow2(13 - j) == 2 * Pow2(12 - j);
    Pow2Small();
    hide *;
    TermIs(4096, j);
    TermIs(0, j);
    Pow2Sum(13 - j, j - 1);
    EvenQuotient(4096, Pow2(j - 1), Pow2(12 - j));
    EvenQuotient(0, Pow2(j - 1), 0);
  }

  lemma SizeOf4096()
    ensures NumBits(4096) == NumBits(0) == 0
  {
    hide Term;
    forall j: nat | 1 <= j <= 12
      ensures Term(4096, j) <= 0 && Term(0, j) <= 0 && (j == 1 ==> Term(4096, j) == Term(0, j) == 0)
    {
      TermOf4096(j);
    }
    NumBitsIsMax(4096);
    NumBitsIsMax(0);
    MaxTermIsMax(4096, 12);
    MaxTermIsMax(0, 12);
  }

  lemma OnePosition(b: Block)
    requires forall k :: 1 <= k < 64 ==> b[k] == 0
    ensures Positions(b) == [0]
  {
    FirstPosition(b, 0);
    if |Positions(b)| > 1 {
      PositionOrder(b, 1);
    }
  }

  lemma DcOnly(b: Block)
    requires Positions(b) == [0] && NumBits(Abs(b[0])) == 0
    ensures SymbolAt(b, 0) == 0 && ExtraAt(b, 0) == 0 && EmitEob(b)
  {
    hide NumBits, PositionsFrom;
    assert Pow2(0) == 1;
  }

  lemma DcOnlySymbols(b: Block)
    requires Positions(b) == [0] && NumBits(Abs(b[0])) == 0
    ensures SymbolsOf(b) == [0] && ExtrasOf(b) == [0] && EmitEob(b) && SymbolAt(b, 0) == 0
  {
    DcOnly(b);
    hide SymbolAt, ExtraAt, EmitEob, PositionsFrom;
  }

  lemma SameCode(b: Block, z: Block, dcT: HuffmanTable, acT: HuffmanTable, dc: CodeTable, ac: CodeTable)
    requires Valid(dcT) && Valid(acT) && TableOf(dcT, dc) && TableOf(acT, ac)
    requires SymbolsOf(b) == SymbolsOf(z) && ExtrasOf(b) == ExtrasOf(z) && (EmitEob(b) <==> EmitEob(z))
    requires Positions(b) == Positions(z) == [0] && SymbolAt(b, 0) == SymbolAt(z, 0)
    ensures BitsOfBlock(b, dcT, acT, dc, ac) == BitsOfBlock(z, dcT, acT, dc, ac)
    ensures Codable(b, dcT, acT) <==> Codable(z, dcT, acT)
  {
    hide SymbolsOf, ExtrasOf, EmitEob, SymbolAt, Positions, TableOf, HasAc, BlockBits, CanWriteBlock;
    CanWriteIt(b, dcT, acT, dc, ac);
    CanWriteIt(z, dcT, acT, dc, ac);
  }

  lemma LargeDc()
    ensures var b := ZeroBlock()[0 := 4096];
            Positions(b) == Positions(ZeroBlock()) == [0] && NumBits(Abs(b[0])) == NumBits(Abs(ZeroBlock()[0])) == 0
    ensures Decodable(ZeroBlock())
  {
    OnePosition(ZeroBlock()[0 := 4096]);
    OnePosition(ZeroBlock());
    SizeOf4096();
    hide Positions, NumBits;
  }

  /** From 4096 on a block need not even be rejected: a DC difference of 4096 is written and read as 0. */
  lemma LargeDifferenceIsMisread(dcT: HuffmanTable, acT: HuffmanTable, dc: CodeTable, ac: CodeTable, rest: Bits)
    requires Valid(dcT) && Valid(acT) && TableOf(dcT, dc) && TableOf(acT, ac) && Codable(ZeroBlock(), dcT, acT)
    ensures var b := ZeroBlock()[0 := 4096];
            Codable(b, dcT, acT) && DecodeBlock(dcT, acT, BitsOfBlock(b, dcT, acT, dc, ac) + rest) == Got(ZeroBlock(), rest)
  {
    hide *;
    var b, z := ZeroBlock()[0 := 4096], ZeroBlock();
    LargeDc();
    DcOnlySymbols(b);
    DcOnlySymbols(z);
    SameCode(b, z, dcT, acT, dc, ac);
    BlockRoundTripsIff(z, dcT, acT, dc, ac, rest);
  }

  /** The DC symbol and the rest of a block, and how the rest reads back. */
  lemma BitsSplit(b: Block, dcT: HuffmanTable, acT: HuffmanTable, dc: CodeTable, ac: CodeTable, rest: Bits) returns (tail: Bits)
    requires InRange(b) && TableOf(dcT, dc) && TableOf(acT, ac) && Codable(b, dcT, acT)
    ensures SymbolAt(b, 0) in Symbols(dcT) && CanEmit(dc, SymbolAt(b, 0), ExtraAt(b, 0))
    ensures BitsOfBlock(b, dcT, acT, dc, ac) + rest == CodeBits(dc, SymbolAt(b, 0), ExtraAt(b, 0)) + (tail + rest)
    ensures DecodeAc(acT, 1, Upto(b, 1), tail + rest) == if SmallFrom(b, 1) then Got(b, rest) else Fail
  {
    hide DecodeAc, Positions, SymbolAt, ExtraAt, TableOf, CanEmit, CanEmitAc, SmallFrom, Upto, EmitEob, CodeBits, AcTail, HasAc;
    CanWriteIt(b, dcT, acT, dc, ac);
    tail := AcTail(SymbolsOf(b), ExtrasOf(b), 1, |Positions(b)|, EmitEob(b), dc, ac);
    Associate(CodeBits(dc, SymbolAt(b, 0), ExtraAt(b, 0)), tail, rest);
    DecodeTail(b, 1, acT, dc, ac, rest);
  }

  /** Unfolding of DecodeBlock. */
  lemma DecodeFrom(dcT: HuffmanTable, acT: HuffmanTable, bits: Bits, s: nat, bits1: Bits, v: nat, bits2: Bits, diff: int)
    requires Valid(dcT) && Valid(acT) && DecodeSymbol(dcT, bits) == Got(s, bits1)
    requires if s == 0 then bits1 == bits2 && diff == 0 else ReadBits(bits1, s) == Got(v, bits2) && diff == HuffExtend(v, s)
    ensures DecodeBlock(dcT, acT, bits)
         == if s >= DC_ALPHABET_SIZE then Fail else DecodeAc(acT, 1, ZeroBlock()[0 := diff], bits2)
  {
    hide DecodeSymbol, DecodeAc, ReadBits, HuffExtend, ZeroBlock;
    ZeroFirst();
  }

  lemma TablesAreValid(t: HuffmanTable, c: CodeTable)
    requires TableOf(t, c)
    ensures Valid(t) && c.WellFormed()
  {
  }

  lemma NoBits(e: nat, rest: Bits)
    ensures Low(e, 0) + rest == rest
  {
  }

  // ---------------------------------------------------------------- the encoder

  /** The AC table has the symbols from the i-th position on, and the end-of-block symbol. */
  predicate HasTail(b: Block, i: nat, t: HuffmanTable)
    requires t.Shape()
  {
    (forall j :: i <= j < |Positions(b)| ==> HasAc(t, SymbolAt(b, j))) && (EmitEob(b) ==> 0 in Symbols(t))
  }

  lemma HasTailStep(b: Block, i: nat, t: HuffmanTable)
    requires t.Shape() && i < |Positions(b)|
    ensures HasTail(b, i, t) <==> HasAc(t, SymbolAt(b, i)) && HasTail(b, i + 1, t)
  {
    hide HasAc, SymbolAt, EmitEob, Positions;
  }

  lemma {:induction false} KnownTail(b: Block, i: nat, t: HuffmanTable, c: CodeTable)
    requires Valid(t) && c.WellFormed() && TableOf(t, c) && 1 <= i <= |Positions(b)| == |SymbolsOf(b)|
    requires forall j :: 1 <= j < |SymbolsOf(b)| ==> SymbolsOf(b)[j] >= 0
    ensures TailKnown(SymbolsOf(b), i, |SymbolsOf(b)|, EmitEob(b), c) <==> HasTail(b, i, t)
    decreases |Positions(b)| - i
  {
    hide Positions, SymbolAt, EmitEob, CanEmit, HasAc, AcKnown, SymbolsOf;
    if i == |Positions(b)| {
      ExtraOfSize(0);
      PowZero();
      CanEmitAny(t, c, 0, 0);
    } else {
      KnownTail(b, i + 1, t, c);
      HasTailStep(b, i, t);
      hide HasTail;
      SymbolParts(b, i);
      SymbolsAre(b, i);
      CanEmitAnyAc(t, c, Run(b, i), SizeCode(b, i), ExtraAt(b, i));
    }
  }

  lemma SymbolsAre(b: Block, i: nat)
    requires i < |Positions(b)|
    ensures |SymbolsOf(b)| == |Positions(b)| && SymbolsOf(b)[i] == SymbolAt(b, i) && ExtraAt(b, i) < WORD
  {
    SymbolParts(b, i);
  }

  /** The encoding of a block from its coefficients (in zigzag order): the writer stays healthy exactly
      if the tables have the symbols, and then the bits read back by BlockRoundTrips. */
  method EncodeBlock(block: array<int>, nonzeroIdx: array<int>, symbols: array<int>, dc: CodeTable, ac: CodeTable,
                     bw: JpegBitWriter, ghost b: Block, ghost dcT: HuffmanTable, ghost acT: HuffmanTable)
    requires block.Length == symbols.Length == 64 && nonzeroIdx.Length == 65
    requires block != symbols && block != nonzeroIdx && symbols != nonzeroIdx
    requires block[..] == b && TableOf(dcT, dc) && TableOf(acT, ac) && bw.Valid()
    modifies block, nonzeroIdx, symbols, bw
    ensures bw.Valid() && bw.base == old(bw.base)
    ensures bw.Bits() == old(bw.Bits()) + BitsOfBlock(b, dcT, acT, dc, ac)
    ensures bw.healthy <==> old(bw.healthy) && Codable(b, dcT, acT)
  {
    hide *;
    var numNonzeros := CompactBlock(block, nonzeroIdx, b);
    var emitEob := nonzeroIdx[numNonzeros] < 1008;
    ComputeSymbols(numNonzeros, nonzeroIdx, block, symbols, b);
    EncodedBlock(b, symbols[..numNonzeros], block[..numNonzeros], emitEob, dcT, acT, dc, ac);
    WriteBlock(symbols[..numNonzeros], block[..numNonzeros], numNonzeros, emitEob, dc, ac, bw);
  }

  lemma EncodedBlock(b: Block, symbols: seq<int>, extras: seq<int>, emitEob: bool,
                     dcT: HuffmanTable, acT: HuffmanTable, dc: CodeTable, ac: CodeTable)
    requires TableOf(dcT, dc) && TableOf(acT, ac)
    requires |symbols| == |extras| == |Positions(b)|
    requires forall i :: 0 <= i < |Positions(b)| ==> symbols[i] == SymbolAt(b, i) && extras[i] == ExtraAt(b, i)
    requires emitEob <==> 16 * Positions(b)[|Positions(b)| - 1] < 1008
    ensures CanWriteBlock(symbols, extras, |Positions(b)|, dc, ac)
    ensures BlockBits(symbols, extras, |Positions(b)|, emitEob, dc, ac) == BitsOfBlock(b, dcT, acT, dc, ac)
    ensures (dc.depth[symbols[0]] != 0 && TailKnown(symbols, 1, |Positions(b)|, emitEob, ac)) <==> Codable(b, dcT, acT)
  {
    hide *;
    SameSymbols(b, symbols, extras, emitEob);
    CanWriteIt(b, dcT, acT, dc, ac);
    KnownIfCodable(b, dcT, acT, dc, ac);
  }

  lemma SameSymbols(b: Block, symbols: seq<int>, extras: seq<int>, emitEob: bool)
    requires |symbols| == |extras| == |Positions(b)|
    requires forall i :: 0 <= i < |Positions(b)| ==> symbols[i] == SymbolAt(b, i) && extras[i] == ExtraAt(b, i)
    requires emitEob <==> 16 * Positions(b)[|Positions(b)| - 1] < 1008
    ensures symbols == SymbolsOf(b) && extras == ExtrasOf(b) && emitEob == EmitEob(b)
  {
    hide Positions, SymbolAt, ExtraAt;
  }

  lemma KnownIfCodable(b: Block, dcT: HuffmanTable, acT: HuffmanTable, dc: CodeTable, ac: CodeTable)
    requires TableOf(dcT, dc) && TableOf(acT, ac)
    requires CanWriteBlock(SymbolsOf(b), ExtrasOf(b), |Positions(b)|, dc, ac)
    ensures BlockBits(SymbolsOf(b), ExtrasOf(b), |Positions(b)|, EmitEob(b), dc, ac) == BitsOfBlock(b, dcT, acT, dc, ac)
    ensures (dc.depth[SymbolsOf(b)[0]] != 0 && TailKnown(SymbolsOf(b), 1, |Positions(b)|, EmitEob(b), ac))
       <==> Codable(b, dcT, acT)
  {
    hide Positions, SymbolAt, ExtraAt, CanEmit, CanEmitAc, HasAc, TableOf, EmitEob, SizeCode, AcTail, TailKnown, BlockBits;
    TablesAreValid(acT, ac);
    KnownTail(b, 1, acT, ac);
    SymbolParts(b, 0);
    SymbolsAre(b, 0);
    ExtraOfSize(SizeCode(b, 0));
    CanEmitAny(dcT, dc, SizeCode(b, 0), ExtraAt(b, 0));
  }
}
