/** From the coefficients of a block to its symbols: positions, sizes, runs and extra bits. */
module BlockSymbols {
  import opened Arithmetic
  import opened BitStrings

  type Block = b: seq<int> | |b| == 64 witness seq(64, _ => 0)

  function BitLength(x: nat): nat {
    if x == 0 then 0 else 1 + BitLength(x / 2)
  }

  lemma {:induction false} AndOfPow2(x: nat, j: nat, w: nat)
    requires j < w
    ensures And(x, Pow2(j), w) == if x / Pow2(j) % 2 == 1 then Pow2(j) else 0
  {
    if j == 0 {
      AndWithZero(x / 2, w - 1);
    } else {
      AndOfPow2(x / 2, j - 1, w - 1);
      DivTwice(x, Pow2(j - 1));
    }
  }

  /** The j-th of the twelve terms of the size computation: j if bit j - 1 of x is set, and at most 0
      otherwise. The source writes the masks and the constants 2^(j-1) - j out. */
  function Term(x: nat, j: nat): int
    requires 1 <= j <= 12
  {
    And(x, Pow2(j - 1), 32) - (Pow2(j - 1) - j)
  }

  function MaxTerm(x: nat, j: nat): int
    requires 1 <= j <= 12
  {
    if j == 1 then Term(x, 1) else Max(MaxTerm(x, j - 1), Term(x, j))
  }

  /** The size category, as a maximum over the masked bits of a 32-bit value. */
  function NumBits(x: nat): int {
    MaxTerm(x, 12)
  }

  /** The terms of the source, whose maximum it takes. */
  function SourceTerms(x: nat): seq<int> {
    [And(x, 1, 32), And(x, 2, 32), And(x, 4, 32) - 1, And(x, 8, 32) - 4, And(x, 16, 32) - 11,
     And(x, 32, 32) - 26, And(x, 64, 32) - 57, And(x, 128, 32) - 120, And(x, 256, 32) - 247,
     And(x, 512, 32) - 502, And(x, 1024, 32) - 1013, And(x, 2048, 32) - 2036]
  }

  lemma NumBitsIsMaxOfSourceTerms(x: nat)
    ensures NumBits(x) in SourceTerms(x) && forall t :: t in SourceTerms(x) ==> t <= NumBits(x)
  {
    Pow2Small();
    hide And, Pow2;
    var ts := SourceTerms(x);
    assert forall j :: 1 <= j <= 12 ==> ts[j - 1] == Term(x, j);
    MaxTermIsMax(x, 12);
    forall t | t in ts
      ensures t <= NumBits(x)
    {
      var i :| 0 <= i < 12 && ts[i] == t;
      assert Term(x, i + 1) == t;
    }
  }

  lemma {:induction false} MaxTermIsMax(x: nat, m: nat)
    requires 1 <= m <= 12
    ensures forall j :: 1 <= j <= m ==> Term(x, j) <= MaxTerm(x, m)
    ensures exists j :: 1 <= j <= m && Term(x, j) == MaxTerm(x, m)
  {
    hide Term;
    if m > 1 {
      MaxTermIsMax(x, m - 1);
      assert MaxTerm(x, m) == Term(x, m) || MaxTerm(x, m) == MaxTerm(x, m - 1);
    } else {
      assert MaxTerm(x, 1) == Term(x, 1);
    }
  }

  lemma TermIs(x: nat, j: nat)
    requires 1 <= j <= 12
    ensures Term(x, j) == if x / Pow2(j - 1) % 2 == 1 then j else j - Pow2(j - 1)
    ensures Term(x, j) <= j && j <= Pow2(j - 1)
  {
    AndOfPow2(x, j - 1, 32);
    Pow2Small();
  }

  /** Terms above the bit length contribute nothing, and the one at the bit length gives it. */
  lemma TermAgainstLength(x: nat, n: nat, j: nat)
    requires 1 <= j <= 12 && x < Pow2(n) && (x > 0 ==> n > 0 && Pow2(n - 1) <= x) && (x == 0 ==> n == 0)
    ensures Term(x, j) <= n && (j == n ==> Term(x, j) == n) && (n == 0 && j == 1 ==> Term(x, j) == 0)
  {
    TermIs(x, j);
    var p := Pow2(j - 1);
    if j > n {
      Pow2Mono(n, j - 1);
      DivModUnique(x, p, 0, x);
    } else if j == n {
      DivModUnique(x, p, 1, x - p);
    }
    assert Pow2(0) == 1;
  }

  lemma Pow2Small()
    ensures Pow2(0) == 1 && Pow2(1) == 2 && Pow2(2) == 4 && Pow2(3) == 8 && Pow2(4) == 16 && Pow2(5) == 32
    ensures Pow2(6) == 64 && Pow2(7) == 128 && Pow2(8) == 256 && Pow2(9) == 512 && Pow2(10) == 1024
    ensures Pow2(11) == 2048 && Pow2(12) == 4096
  {
    assert Pow2(4) == 16;
    assert Pow2(8) == 16 * 16 by { Pow2Sum(4, 4); }
  }

  lemma {:induction false} BitLengthBounds(x: nat)
    ensures x < Pow2(BitLength(x)) && (x > 0 ==> BitLength(x) > 0 && Pow2(BitLength(x) - 1) <= x)
  {
    if x > 0 {
      BitLengthBounds(x / 2);
    }
  }

  lemma {:induction false} BitLengthOfSmall(x: nat, n: nat)
    ensures x < Pow2(n) <==> BitLength(x) <= n
  {
    if x > 0 && n > 0 {
      BitLengthOfSmall(x / 2, n - 1);
    } else if x > 0 {
      BitLengthBounds(x);
    }
  }

  lemma {:induction false} MaxOfTerms(x: nat, n: nat, m: nat)
    requires 1 <= m <= 12 && Term(x, 1) >= 0
    requires forall j: nat :: 1 <= j <= 12 ==> Term(x, j) <= n && Term(x, j) <= 12 && (j == n ==> Term(x, j) == n)
    ensures 0 <= MaxTerm(x, m) <= 12 && MaxTerm(x, m) <= n && (1 <= n <= m ==> MaxTerm(x, m) == n)
  {
    hide Term;
    if m > 1 {
      MaxOfTerms(x, n, m - 1);
    }
  }

  /** The maximum is the bit length exactly for values of at most twelve bits. */
  lemma NumBitsIsBitLength(x: nat)
    ensures NumBits(x) == BitLength(x) <==> x < 4096
    ensures 0 <= NumBits(x) <= 12
  {
    Pow2Small();
    BitLengthOfSmall(x, 12);
    BitLengthBounds(x);
    hide *;
    var n := BitLength(x);
    assert x == 0 ==> n == 0 by {
      BitLengthOfSmall(x, 0);
    }
    forall j: nat | 1 <= j <= 12
      ensures Term(x, j) <= n && Term(x, j) <= 12 && (j == n ==> Term(x, j) == n) && (n == 0 && j == 1 ==> Term(x, j) == 0)
    {
      TermIs(x, j);
      TermAgainstLength(x, n, j);
    }
    FirstTerm(x);
    NumBitsIsMax(x);
    MaxOfTerms(x, n, 12);
  }

  lemma NumBitsIsMax(x: nat)
    ensures NumBits(x) == MaxTerm(x, 12)
  {
  }

  lemma FirstTerm(x: nat)
    ensures Term(x, 1) >= 0
  {
    TermIs(x, 1);
    assert Pow2(0) == 1;
  }

  // ---------------------------------------------------------------- extra bits

  /** The bits that follow the size category: the value, or the value minus one if it is negative,
      cut to nbits bits (two's complement). */
  function ExtraBits(c: int, nbits: nat): (e: nat)
    ensures e < Pow2(nbits)
  {
    (if c < 0 then c - 1 else c) % Pow2(nbits)
  }

  /** EXTEND of section F.2.2.1. */
  function HuffExtend(x: int, s: nat): int
    requires s > 0
  {
    if x >= Pow2(s - 1) then x else x - Pow2(s) + 1
  }

  lemma ExtendUndoesExtraBits(c: int)
    requires c != 0
    ensures BitLength(Abs(c)) > 0
    ensures HuffExtend(ExtraBits(c, BitLength(Abs(c))), BitLength(Abs(c))) == c
  {
    var n := BitLength(Abs(c));
    BitLengthBounds(Abs(c));
    if c > 0 {
      DivModUnique(c, Pow2(n), 0, c);
    } else {
      DivModUnique(c - 1, Pow2(n), -1, c - 1 + Pow2(n));
    }
  }

  // ---------------------------------------------------------------- positions and symbols

  /** The positions from k on that are coded: the DC position always, others if they are not zero. */
  function PositionsFrom(b: Block, k: nat): (ps: seq<nat>)
    requires k <= 64
    ensures |ps| <= 64 - k
    decreases 64 - k
  {
    if k == 64 then [] else
      (if k == 0 || b[k] != 0 then [k] else []) + PositionsFrom(b, k + 1)
  }

  lemma {:induction false} PositionsIncrease(b: Block, k: nat)
    requires k <= 64
    ensures forall i :: 0 <= i < |PositionsFrom(b, k)| ==> k <= PositionsFrom(b, k)[i] < 64
    ensures forall i :: 0 <= i < |PositionsFrom(b, k)| ==> PositionsFrom(b, k)[i] == 0 || b[PositionsFrom(b, k)[i]] != 0
    ensures forall i, j :: 0 <= i < j < |PositionsFrom(b, k)| ==> PositionsFrom(b, k)[i] < PositionsFrom(b, k)[j]
    decreases 64 - k
  {
    if k < 64 {
      PositionsIncrease(b, k + 1);
    }
  }

  function Positions(b: Block): (ps: seq<nat>)
    ensures ps != [] && ps[0] == 0 && |ps| <= 64
    ensures forall i :: 0 <= i < |ps| ==> 0 <= ps[i] < 64
  {
    PositionsIncrease(b, 0);
    PositionsFrom(b, 0)
  }

  /** 16 times the number of zeros skipped before the i-th coded position, plus its size category. */
  function SymbolAt(b: Block, i: nat): int
    requires i < |Positions(b)|
  {
    var ps := Positions(b);
    NumBits(Abs(b[ps[i]])) + 16 * ps[i] - (if i == 0 then 0 else 16 * ps[i - 1] + 16)
  }

  function ExtraAt(b: Block, i: nat): nat
    requires i < |Positions(b)|
  {
    NumBitsIsBitLength(Abs(b[Positions(b)[i]]));
    ExtraBits(b[Positions(b)[i]], NumBits(Abs(b[Positions(b)[i]])))
  }

  /** The number of coded positions below k. */
  function CountBelow(b: Block, k: nat): (n: nat)
    requires k <= 64
    ensures n <= k
  {
    if k == 0 then 0 else CountBelow(b, k - 1) + (if k == 1 || b[k - 1] != 0 then 1 else 0)
  }

  lemma SliceOn(ps: seq<nat>, n: nat, head: seq<nat>, tail: seq<nat>)
    requires n <= |ps| && ps[n..] == head + tail
    ensures n + |head| <= |ps| && ps[n + |head|..] == tail
  {
  }

  lemma {:induction false} PositionsSplit(b: Block, k: nat)
    requires k <= 64
    ensures CountBelow(b, k) <= |Positions(b)| && Positions(b)[CountBelow(b, k)..] == PositionsFrom(b, k)
  {
    if k > 0 {
      hide *;
      PositionsSplit(b, k - 1);
      var head := SplitStep(b, k);
      SliceOn(Positions(b), CountBelow(b, k - 1), head, PositionsFrom(b, k));
    } else {
      assert Positions(b)[0..] == Positions(b);
    }
  }

  lemma SplitStep(b: Block, k: nat) returns (head: seq<nat>)
    requires 1 <= k <= 64
    ensures PositionsFrom(b, k - 1) == head + PositionsFrom(b, k)
    ensures CountBelow(b, k) == CountBelow(b, k - 1) + |head|
  {
    head := if k == 1 || b[k - 1] != 0 then [k - 1] else [];
  }

  lemma FirstPosition(b: Block, k: nat)
    requires k < 64 && (k == 0 || b[k] != 0)
    ensures PositionsFrom(b, k) != [] && PositionsFrom(b, k)[0] == k
  {
  }

  /** counts[k] coded positions lie below k, and if k is coded, it is the one of that index. */
  lemma PositionTable(b: Block) returns (counts: seq<nat>)
    ensures |counts| == 65 && counts[0] == 0 && counts[64] == |Positions(b)|
    ensures forall k :: 0 <= k < 64 ==> counts[k] <= k
    ensures forall k :: 0 <= k < 64 ==>
      if k == 0 || b[k] != 0 then counts[k] < |Positions(b)| && Positions(b)[counts[k]] == k && counts[k + 1] == counts[k] + 1
      else counts[k + 1] == counts[k]
  {
    hide Positions, PositionsFrom;
    counts := seq(65, k requires 0 <= k < 65 => CountBelow(b, k));
    PositionsSplit(b, 64);
    forall k | 0 <= k < 64 && (k == 0 || b[k] != 0)
      ensures CountBelow(b, k) < |Positions(b)| && Positions(b)[CountBelow(b, k)] == k
    {
      PositionsSplit(b, k);
      FirstPosition(b, k);
      assert Positions(b)[CountBelow(b, k)..][0] == k;
    }
  }

  /** Moves the coded coefficients of b to the front of the block, in place, and notes 16 times
      their positions. */
  method CompactBlock(block: array<int>, nonzeroIdx: array<int>, ghost b: Block) returns (numNonzeros: nat)
    requires block.Length == 64 && nonzeroIdx.Length == 65 && block != nonzeroIdx && block[..] == b
    modifies block, nonzeroIdx
    ensures numNonzeros == |Positions(b)|
    ensures forall i :: 0 <= i < numNonzeros ==> block[i] == b[Positions(b)[i]]
    ensures forall i :: 0 <= i < numNonzeros ==> nonzeroIdx[i + 1] == 16 * Positions(b)[i]
  {
    hide *;
    ghost var ps := Positions(b);
    ghost var counts := PositionTable(b);
    numNonzeros := 0;
    for k := 0 to 64
      invariant numNonzeros == counts[k] <= |ps|
      invariant forall i :: 0 <= i < numNonzeros ==> block[i] == b[ps[i]]
      invariant forall i :: 0 <= i < numNonzeros ==> nonzeroIdx[i + 1] == 16 * ps[i]
      invariant forall i :: k <= i < 64 ==> block[i] == b[i]
    {
      if k == 0 || block[k] != 0 {
        block[numNonzeros] := block[k];
        nonzeroIdx[numNonzeros + 1] := 16 * k;
        numNonzeros := numNonzeros + 1;
      }
    }
  }

  lemma SymbolOfIndexes(b: Block, i: nat, idx: int, prevIdx: int)
    requires i < |Positions(b)| && idx == 16 * Positions(b)[i]
    requires prevIdx == if i == 0 then -16 else 16 * Positions(b)[i - 1]
    ensures SymbolAt(b, i) == NumBits(Abs(b[Positions(b)[i]])) + idx - (prevIdx + 16)
    ensures NumBits(Abs(b[Positions(b)[i]])) >= 0
    ensures ExtraAt(b, i) == ExtraBits(b[Positions(b)[i]], NumBits(Abs(b[Positions(b)[i]])))
  {
    hide NumBits, ExtraBits;
    NumBitsIsBitLength(Abs(b[Positions(b)[i]]));
  }

  /** Replaces the coded coefficients by their extra bits and computes their symbols. Slot 0 of
      nonzeroIdx stands for the index -1 of the source. */
  method ComputeSymbols(numNonzeros: nat, nonzeroIdx: array<int>, block: array<int>, symbols: array<int>,
                        ghost b: Block)
    requires block.Length == symbols.Length == 64 && nonzeroIdx.Length == 65
    requires block != symbols && block != nonzeroIdx && symbols != nonzeroIdx
    requires numNonzeros == |Positions(b)|
    requires forall i :: 0 <= i < numNonzeros ==> block[i] == b[Positions(b)[i]] && nonzeroIdx[i + 1] == 16 * Positions(b)[i]
    modifies nonzeroIdx, block, symbols
    ensures forall i :: 0 <= i < numNonzeros ==> symbols[i] == SymbolAt(b, i) && block[i] == ExtraAt(b, i)
    ensures forall i :: 0 < i < 65 ==> nonzeroIdx[i] == old(nonzeroIdx[i])
  {
    hide NumBits, ExtraBits, PositionsFrom, Positions, SymbolAt, ExtraAt;
    nonzeroIdx[0] := -16;
    for i := 0 to numNonzeros
      invariant forall j :: 0 < j < 65 ==> nonzeroIdx[j] == old(nonzeroIdx[j])
      invariant nonzeroIdx[0] == -16
      invariant forall j :: 0 <= j < i ==> symbols[j] == SymbolAt(b, j) && block[j] == ExtraAt(b, j)
      invariant forall j :: i <= j < numNonzeros ==> block[j] == b[Positions(b)[j]]
    {
      var idx, prevIdx, coeff := nonzeroIdx[i + 1], nonzeroIdx[i], block[i];
      var nbits := NumBits(Abs(coeff));
      NumBitsIsBitLength(Abs(coeff));
      SymbolOfIndexes(b, i, idx, prevIdx);
      symbols[i] := nbits + idx - (prevIdx + 16);
      block[i] := ExtraBits(coeff, nbits);
    }
  }
}
