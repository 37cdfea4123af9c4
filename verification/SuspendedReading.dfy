/**
 Suspending and resuming the bit reader (lib/jpegli/decode_scan.cc): what was read before the last two
 bytes of the input does not change when more input arrives, and reading goes on at the same bit.
 */
module SuspendedReading {
  import opened Arithmetic
  import opened BitStrings
  import opened HuffmanCode
  import opened EntropyBytes
  import opened EntropyStream
  import opened BlockDecoding
  import opened SymbolLookup
  import opened BitReader

  // ---------------------------------------------------------------- resuming

  /** A new reader at the position that FinishStream gives, past the bits of its first byte that were read,
      continues the stream, and its own bytes can be given back. */
  lemma ResumeContinues(data: seq<Byte>, start: nat, consumed: nat, n: nat)
    requires start <= |data| && (!AfterFF(data, start) || consumed >= 8) && consumed <= 8 * |Bytes(data, start)|
    requires PosAt(data, start, consumed / 8) <= |data|
    ensures var pos := PosAt(data, start, consumed / 8);
      && Stream(data, pos, consumed % 8, n) == Stream(data, start, consumed, n)
      && !AfterFF(data, pos) && EndOf(data, pos) == EndOf(data, start)
  {
    ResumedStream(data, start, consumed / 8, consumed % 8, n);
    Resumed(data, start, consumed / 8, 0);
    PosIsNoStuffing(data, start, consumed / 8);
  }

  /** A stream that ended too early ended at a marker, unless that is within the last two bytes. */
  lemma EarlyEndIsMarker(data: seq<Byte>, start: nat)
    requires start <= |data| && Min(EndOf(data, start), |data|) + 2 <= |data|
    ensures AtMarker(data, EndOf(data, start)) && start <= EndOf(data, start)
  {
    AtEnd(data, start);
  }

  /** The end of a scan or restart interval skips the rest of a byte that was read in part. */
  method SkipPartialByte(data: seq<Byte>, pos: nat, bitPos: nat, ghost start: nat, ghost consumed: nat) returns (newPos: nat)
    requires start <= |data| && consumed <= 8 * |Bytes(data, start)| && pos == PosAt(data, start, consumed / 8)
    requires bitPos == consumed % 8 && pos + 2 <= |data|
    ensures newPos == PosAt(data, start, (consumed + 7) / 8)
    ensures bitPos > 0 && data[pos] == 0xFF ==> data[pos + 1] == 0
  {
    if bitPos == 0 {
      return pos;
    }
    Inside(data, start, consumed / 8);
    if data[pos] == 0xFF {
      newPos := pos + 2;
    } else {
      newPos := pos + 1;
    }
  }

  // ---------------------------------------------------------------- more input

  /** All bytes of the shorter input are also read from the longer one. */
  lemma {:induction false} BytesOfPrefix(data: seq<Byte>, more: seq<Byte>, pos: nat, k: nat)
    requires data <= more && k < |Bytes(data, pos)|
    ensures ByteAt(more, pos, k) == Bytes(data, pos)[k]
    decreases k
  {
    var next := Next(data, pos);
    assert Next(more, pos) == next && data[pos] == more[pos];
    if More(more, pos) {
      assert |Bytes(more, pos)| == 1 + |Bytes(more, next)| && EndOf(more, pos) == EndOf(more, next);
      if k > 0 {
        BytesOfPrefix(data, more, next, k - 1);
      }
    } else {
      assert pos == |data| - 1 && Bytes(data, next) == [];
    }
  }

  lemma {:induction false} SameUpToMarker(data: seq<Byte>, more: seq<Byte>, pos: nat)
    requires data <= more && EndOf(data, pos) < |data|
    ensures Bytes(more, pos) == Bytes(data, pos) && EndOf(more, pos) == EndOf(data, pos)
    decreases |data| - pos
  {
    if More(data, pos) {
      PosBelowEnd(data, pos, 1);
      assert EndOf(data, pos) == EndOf(data, Next(data, pos));
      assert Next(data, pos) <= EndOf(data, pos);
      SameUpToMarker(data, more, Next(data, pos));
      assert More(more, pos);
    } else {
      assert AtMarker(data, pos) && AtMarker(more, pos);
    }
  }

  /** Every bit of the shorter input is 0 or also read from the longer one. */
  lemma BitOfPrefix(data: seq<Byte>, more: seq<Byte>, pos: nat, i: nat)
    requires data <= more && pos <= |data|
    ensures Bit(data, pos, i) ==> Bit(more, pos, i)
    ensures i < 8 * |Bytes(data, pos)| ==> Bit(data, pos, i) == Bit(more, pos, i)
  {
    if i / 8 < |Bytes(data, pos)| {
      BytesOfPrefix(data, more, pos, i / 8);
    } else if EndOf(data, pos) < |data| {
      SameUpToMarker(data, more, pos);
    } else {
      assert ByteAt(data, pos, i / 8) == 0;
      NoBits(8);
    }
  }

  lemma {:induction false} NoBits(n: nat)
    ensures Low(0, n) == Zeros(n)
  {
    if n > 0 {
      NoBits(n - 1);
      assert Zeros(n) == Zeros(n - 1) + [false];
    }
  }

  /** The bits before a position that is not within the last two bytes. */
  lemma StreamOfPrefix(data: seq<Byte>, more: seq<Byte>, start: nat, c: nat, n: nat, last: nat)
    requires data <= more && start <= |data| && c + n <= last && PosAt(data, start, last / 8) + 2 <= |data|
    ensures Stream(data, start, c, n) == Stream(more, start, c, n)
  {
    hide ByteAt, Bit;
    forall i | 0 <= i < n
      ensures Stream(data, start, c, n)[i] == Stream(more, start, c, n)[i]
    {
      var j := c + i;
      assert Stream(data, start, c, n)[i] == Bit(data, start, j) && Stream(more, start, c, n)[i] == Bit(more, start, j);
      BitsBefore(data, more, start, j, last);
    }
  }

  lemma BitsBefore(data: seq<Byte>, more: seq<Byte>, start: nat, j: nat, last: nat)
    requires data <= more && start <= |data| && j < last && PosAt(data, start, last / 8) + 2 <= |data|
    ensures Bit(data, start, j) == Bit(more, start, j)
  {
    BitOfPrefix(data, more, start, j);
    if j >= 8 * |Bytes(data, start)| {
      PastEnd(data, start, last / 8);
      SameUpToMarker(data, more, start);
    }
  }

  lemma {:induction false} ValueMono(s: Bits, t: Bits)
    requires |s| == |t| && forall i :: 0 <= i < |s| ==> s[i] ==> t[i]
    ensures ValueOf(s) <= ValueOf(t)
  {
    if s != [] {
      ValueMono(s[..|s| - 1], t[..|t| - 1]);
    }
  }

  lemma WindowOfPrefix(data: seq<Byte>, more: seq<Byte>, start: nat, c: nat)
    requires data <= more && start <= |data|
    ensures Window(data, start, c) <= Window(more, start, c)
  {
    hide Bit;
    var s, t := Stream(data, start, c, 16), Stream(more, start, c, 16);
    forall i | 0 <= i < 16
      ensures s[i] ==> t[i]
    {
      assert s[i] == Bit(data, start, c + i) && t[i] == Bit(more, start, c + i);
      BitOfPrefix(data, more, start, c + i);
    }
    ValueMono(s, t);
  }

  lemma DecodedStream(t: HuffmanTable, data: seq<Byte>, start: nat, c: nat, n: nat)
    requires HuffmanCode.Valid(t) && n >= 16
    ensures DecodeSymbol(t, Stream(data, start, c, n)) == Fail <==> Window(data, start, c) >= Space(t.Sizes(), t.Total())
  {
    var w, rest := Window(data, start, c), Stream(data, start, c + 16, n - 16);
    LowOfValue(Stream(data, start, c, 16));
    StreamConcat(data, start, c, 16, n - 16);
    assert Stream(data, start, c, n) == Low(w, 16) + rest;
    hide *;
    hide Window;
    if w >= Space(t.Sizes(), t.Total()) {
      DecodedNone(t, w, rest);
    } else {
      var p := Owner(t.Sizes(), w, t.Total());
      DecodedCode(t, w, rest, p);
    }
  }

  /** A code that is invalid with the zeros past the input is invalid with any other bits in their place. */
  lemma InvalidWithMoreInput(t: HuffmanTable, data: seq<Byte>, more: seq<Byte>, start: nat, c: nat, n: nat)
    requires data <= more && start <= |data| && HuffmanCode.Valid(t) && n >= 16
    requires DecodeSymbol(t, Stream(data, start, c, n)) == Fail
    ensures DecodeSymbol(t, Stream(more, start, c, n)) == Fail
  {
    hide DecodeSymbol, Window;
    DecodedStream(t, data, start, c, n);
    DecodedStream(t, more, start, c, n);
    WindowOfPrefix(data, more, start, c);
  }

  lemma DecodedIsWord(t: HuffmanTable, bits: Bits) returns (p: nat)
    requires HuffmanCode.Valid(t) && DecodeSymbol(t, bits).Got?
    ensures p < t.Total() && Word(t.Sizes(), p) <= bits && |Word(t.Sizes(), p)| == t.Sizes()[p]
    ensures DecodeSymbol(t, bits) == Got(t.huffval[p], bits[t.Sizes()[p]..])
  {
    p := FindWord(t.Sizes(), bits, 0);
    WordLength(t.Sizes(), p);
  }

  /** A code word that is found in the shorter input is found where the longer one has the same bits. */
  lemma SameWord(t: HuffmanTable, bits: Bits, bits2: Bits, l: nat)
    requires HuffmanCode.Valid(t) && DecodeSymbol(t, bits).Got? && l <= |bits| == |bits2| && bits[..l] == bits2[..l]
    requires |DecodeSymbol(t, bits).rest| == |bits| - l
    ensures DecodeSymbol(t, bits2) == Got(DecodeSymbol(t, bits).value, bits2[l..])
  {
    hide Word, DecodeSymbol, Distinct, Fits, CodeLengths;
    var p := DecodedIsWord(t, bits);
    assert bits2 == Word(t.Sizes(), p) + bits2[l..];
    DecodeWord(t, p, bits2[l..]);
  }

  lemma SymbolWithMoreInputIn(t: HuffmanTable, data: seq<Byte>, more: seq<Byte>, start: nat, c: nat, c2: nat, value: nat,
                              last: nat, n: nat)
    requires data <= more && start <= |data| && SymbolReadIn(t, data, start, c, c2, value, n) && value < INVALID_SYMBOL
    requires c2 <= last && PosAt(data, start, last / 8) + 2 <= |data|
    ensures SymbolReadIn(t, more, start, c, c2, value, n)
  {
    hide DecodeSymbol, Stream, PosAt, HuffmanCode.Valid;
    StreamOfPrefix(data, more, start, c, c2 - c, last);
    StreamSlice(data, start, c, n, c2 - c);
    StreamSlice(more, start, c, n, c2 - c);
    SameWord(t, Stream(data, start, c, n), Stream(more, start, c, n), c2 - c);
  }

  /** A symbol whose code lies before the last two bytes is also read from the longer input. */
  lemma SymbolWithMoreInput(t: HuffmanTable, data: seq<Byte>, more: seq<Byte>, start: nat, c: nat, c2: nat, value: nat, last: nat)
    requires data <= more && start <= |data| && SymbolRead(t, data, start, c, c2, value) && value < INVALID_SYMBOL
    requires c2 <= last && PosAt(data, start, last / 8) + 2 <= |data|
    ensures SymbolRead(t, more, start, c, c2, value)
  {
    hide SymbolReadIn;
    forall n: nat | n >= 16
      ensures SymbolReadIn(t, more, start, c, c2, value, n)
    {
      SymbolWithMoreInputIn(t, data, more, start, c, c2, value, last, n);
    }
  }

  // ---------------------------------------------------------------- whole runs

  /** One read: n bits with their value, or a symbol and the length of its code. */
  datatype Read = Extra(n: nat, value: nat) | Symbol(table: HuffmanTable, n: nat, value: nat)

  ghost predicate IsRead(data: seq<Byte>, start: nat, c: nat, r: Read) {
    match r
    case Extra(n, value) => value < Pow2(n) && Low(value, n) == Stream(data, start, c, n)
    case Symbol(t, n, value) => value < INVALID_SYMBOL && SymbolRead(t, data, start, c, c + n, value)
  }

  /** The reads follow each other from bit c on, and all symbols are valid. */
  ghost predicate IsRun(data: seq<Byte>, start: nat, c: nat, run: seq<Read>)
    decreases |run|
  {
    run == [] || (IsRead(data, start, c, run[0]) && IsRun(data, start, c + run[0].n, run[1..]))
  }

  function BitsOfRun(run: seq<Read>): nat {
    if run == [] then 0 else run[0].n + BitsOfRun(run[1..])
  }

  /** Whatever a decoder read without reaching the last two bytes of the input, it reads again when it
      starts anew with more input: keeping these results and waiting for input otherwise is sound. */
  lemma {:induction false} RunWithMoreInput(data: seq<Byte>, more: seq<Byte>, start: nat, c: nat, run: seq<Read>, last: nat)
    requires data <= more && start <= |data| && IsRun(data, start, c, run)
    requires last == c + BitsOfRun(run) && PosAt(data, start, last / 8) + 2 <= |data|
    ensures IsRun(more, start, c, run) && PosAt(more, start, last / 8) == PosAt(data, start, last / 8)
    decreases |run|
  {
    hide SymbolRead, Stream;
    if run != [] {
      var r := run[0];
      if r.Symbol? {
        SymbolWithMoreInput(r.table, data, more, start, c, c + r.n, r.value, last);
      } else {
        StreamOfPrefix(data, more, start, c, r.n, last);
      }
      RunWithMoreInput(data, more, start, c + r.n, run[1..], last);
    } else {
      SamePosition(data, more, start, last / 8);
    }
  }

  lemma {:induction false} SamePosition(data: seq<Byte>, more: seq<Byte>, pos: nat, k: nat)
    requires data <= more && pos <= |data| && PosAt(data, pos, k) + 2 <= |data|
    ensures PosAt(more, pos, k) == PosAt(data, pos, k)
    decreases k
  {
    if k > 0 && More(data, pos) {
      var next := Next(data, pos);
      PosNotBelow(data, next, k - 1);
      SamePosition(data, more, next, k - 1);
    }
  }

  lemma {:induction false} PosNotBelow(data: seq<Byte>, pos: nat, k: nat)
    ensures PosAt(data, pos, k) >= pos + k
  {
    if k > 0 {
      PosNotBelow(data, pos, k - 1);
      PosGrows(data, pos, k - 1);
    }
  }

  // ---------------------------------------------------------------- reading what was written

  /** The stream of a written segment starts with the bits that were written, and ends with its padding. */
  lemma StreamOfSegment(before: seq<Byte>, s: Bits, after: seq<Byte>)
    requires after == [] || (|after| >= 2 && after[0] == 0xFF && after[1] != 0)
    ensures var data, start := before + SegmentBytes(s) + after, |before|;
      && Stream(data, start, 0, |s|) == s && 8 * |Bytes(data, start)| == |s| + Padding(|s|)
      && EndOf(data, start) == |before| + |SegmentBytes(s)|
  {
    var bs := PackBits(Padded(s));
    var data, start := before + SegmentBytes(s) + after, |before|;
    BytesOfStuffed(before, bs, after);
    BitsOfPackedBytes(Padded(s));
    forall i | 0 <= i < |s|
      ensures Stream(data, start, 0, |s|)[i] == s[i]
    {
      assert Stream(data, start, 0, |s|)[i] == Bit(data, start, i);
      BitOfBytes(bs, i);
    }
  }

  lemma {:induction false} BitOfBytes(bs: seq<Byte>, i: nat)
    requires i < 8 * |bs|
    ensures BitsOfBytes(bs)[i] == ByteBits(bs[i / 8])[i % 8]
  {
    if i >= 8 {
      BitOfBytes(bs[1..], i - 8);
      assert (i - 8) / 8 == i / 8 - 1 && (i - 8) % 8 == i % 8;
      assert bs[1..][i / 8 - 1] == bs[i / 8];
    }
  }

  /** Where a code word was written, its symbol is read, and nothing but the code word is taken. */
  lemma SymbolOfWord(t: HuffmanTable, data: seq<Byte>, start: nat, c: nat, c2: nat, value: nat, p: nat)
    requires SymbolRead(t, data, start, c, c2, value) && HuffmanCode.Valid(t) && p < t.Total()
    requires Stream(data, start, c, t.Sizes()[p]) == Word(t.Sizes(), p)
    ensures value == t.huffval[p] && c2 == c + t.Sizes()[p]
  {
    var l := t.Sizes()[p];
    var bits := Stream(data, start, c, l + 16);
    StreamConcat(data, start, c, l, 16);
    DecodeWord(t, p, Stream(data, start, c + l, 16));
    assert SymbolReadIn(t, data, start, c, c2, value, l + 16);
  }
}
