/** The bit packer of the encoder and its resumable flush to the application's buffers. */
module BitWriter {
  import opened Arithmetic
  import opened BitStrings
  import opened EntropyBytes
  import opened ZeroByte

  /** The application's destination manager. */
  class Destination {
    var written: seq<Byte>  // everything copied to next_output_byte so far
    var freeInBuffer: nat
    var refills: seq<nat>  // sizes of the buffers that the callback will still provide

    constructor (freeInBuffer: nat, refills: seq<nat>)
      ensures written == [] && this.freeInBuffer == freeInBuffer && this.refills == refills
    {
      written := [];
      this.freeInBuffer := freeInBuffer;
      this.refills := refills;
    }

    /** The callback: it returns FALSE, which asks for suspension, when there is no further buffer. */
    method EmptyOutputBuffer() returns (ok: bool)
      modifies this
      ensures ok <==> old(refills) != []
      ensures written == old(written)
      ensures if ok then freeInBuffer == old(refills)[0] && refills == old(refills)[1..]
              else freeInBuffer == old(freeInBuffer) && refills == old(refills)
    {
      ok := refills != [];
      if ok {
        freeInBuffer := refills[0];
        refills := refills[1..];
      }
    }
  }

  class JpegBitWriter {
    const dest: Destination
    const len: nat  // size of the buffer behind data
    var data: seq<Byte>  // data[0..pos]
    var outputPos: nat
    var putBuffer: uint64
    var freeBits: int
    var healthy: bool

    ghost var base: seq<Byte>  // the stream up to the start of the current segment
    ghost var words: seq<Byte>  // the bytes of the current segment that were emitted, unstuffed

    /** The bits of the current segment. Of the put buffer only the low 64 - freeBits bits count. */
    ghost function Bits(): Bits
      requires 0 <= freeBits <= 64
      reads this
    {
      PendingBits(words, putBuffer, freeBits)
    }

    ghost predicate Valid()
      reads this, dest
    {
      && 0 <= freeBits <= 64
      && outputPos <= |data|
      && 65536 <= len
      && dest.written + data[outputPos..] == base + Stuff(words)
    }

    constructor (dest: Destination, bufferSize: nat)
      requires 65536 <= bufferSize
      ensures Valid() && this.dest == dest && healthy
      ensures base == dest.written && Bits() == [] && freeBits == 64
    {
      this.dest := dest;
      len := bufferSize;
      data, outputPos := [], 0;
      putBuffer, freeBits, healthy := 0, 64, true;
      base, words := dest.written, [];
    }

    method EmitByte(byte: Byte)
      modifies this`data
      ensures data == old(data) + Stuff([byte])
    {
      data := data + [byte];
      if byte == 0xFF {
        data := data + [0];
      }
      assert [byte][1..] == [];
    }

    /** The eight calls of EmitByte. */
    method EmitBytes(w: seq<Byte>)
      modifies this`data
      ensures data == old(data) + Stuff(w)
    {
      for i := 0 to |w|
        invariant data == old(data) + Stuff(w[..i])
      {
        EmitByte(w[i]);
        StuffPrefix(old(data), w, i);
      }
      assert w[..|w|] == w;
    }

    /** Both branches emit the stuffed bytes of the put buffer. */
    method DischargeBitBuffer()
      modifies this`data
      ensures data == old(data) + Stuff(WordBytes(putBuffer))
    {
      var x := putBuffer;
      var bytes := [x / 0x100_0000_0000_0000 % 256, x / 0x1_0000_0000_0000 % 256, x / 0x100_0000_0000 % 256,
                    x / 0x1_0000_0000 % 256, x / 0x100_0000 % 256, x / 0x1_0000 % 256, x / 0x100 % 256, x % 256];
      WordBytesByShifts(x);
      if HasZeroByte(Not(x)) != 0 {
        EmitBytes(bytes);
      } else {
        NoFFByte(x);
        data := data + bytes;
      }
    }

    /** The overflow branch of WriteBits, where freeBits is already reduced by nbits: it completes
        and discharges the word, and refills the put buffer with the value nbits. */
    method CompleteWord(nbits: nat, bits: uint64)
      requires nbits <= 63 && 0 <= freeBits + nbits && freeBits < 0 && outputPos <= |data|
      requires dest.written + data[outputPos..] == base + Stuff(words)
      modifies this`data, this`putBuffer, this`freeBits, this`words
      ensures |data| >= |old(data)| && dest.written + data[outputPos..] == base + Stuff(words)
      ensures words == old(words) + WordBytes(FullWord(old(putBuffer), old(freeBits) + nbits, nbits, bits))
      ensures freeBits == old(freeBits) + 64 && putBuffer == nbits
    {
      putBuffer := Shl(putBuffer, freeBits + nbits);
      putBuffer := OrWord(putBuffer, Shr(bits, -freeBits));
      DischargeBitBuffer();
      StreamGrows(base, words, WordBytes(putBuffer), dest.written, old(data), data, outputPos);
      words := words + WordBytes(putBuffer);
      freeBits := freeBits + 64;
      putBuffer := nbits;
    }

    /** Appends nbits bits to the segment. After an overflow the put buffer holds the value nbits and
        bits that were already written: Bits() shows that neither counts. */
    method WriteBits(nbits: nat, bits: uint64)
      requires Valid()
      requires nbits <= 63 && (nbits > 0 ==> bits < Pow2(nbits))
      modifies this
      ensures Valid() && base == old(base)
      ensures Bits() == old(Bits()) + Low(bits, nbits)
      ensures healthy == (old(healthy) && nbits != 0)
      ensures freeBits == if old(freeBits) < nbits then old(freeBits) - nbits + 64 else old(freeBits) - nbits
      ensures outputPos == old(outputPos)
    {
      hide Shl, OrWord, Low, Pow2, WordBytes, Stuff, FullWord, PendingBits;
      if nbits == 0 {
        healthy := false;
        LowOfNothing(bits);
        return;
      }
      freeBits := freeBits - nbits;
      if freeBits < 0 {
        PendingBitsAcross(words, putBuffer, freeBits + nbits, nbits, bits);
        CompleteWord(nbits, bits);
      } else {
        PendingBitsWithin(words, putBuffer, freeBits + nbits, nbits, bits);
      }
      putBuffer := Shl(putBuffer, nbits);
      putBuffer := OrWord(putBuffer, bits);
    }

    /** Ends the segment: pads it with ones to whole bytes and emits what is left of it. */
    method JumpToByteBoundary()
      requires Valid()
      modifies this
      ensures Valid() && healthy == old(healthy) && outputPos == old(outputPos)
      ensures base == old(base) + SegmentBytes(old(Bits()))
      ensures Bits() == [] && freeBits == 64
    {
      ghost var pending := PadToWholeBytes();
      EmitPendingBytes(pending);
      PackBitsOfBytes(words);
      base := base + Stuff(words);
      words := [];
      putBuffer := 0;
      freeBits := 64;
    }

    /** The padding bits that JumpToByteBoundary writes first. */
    method PadToWholeBytes() returns (ghost pending: nat)
      requires Valid()
      modifies this
      ensures Valid() && base == old(base) && healthy == old(healthy) && outputPos == old(outputPos)
      ensures Bits() == Padded(old(Bits())) && freeBits == 64 - 8 * pending
    {
      var nBits := freeBits % 8;
      PaddingFromFree(|words|, freeBits);
      pending := (64 - freeBits + nBits) / 8;
      assert |Bits()| == 8 * |words| + 64 - freeBits;
      if nBits > 0 {
        LowOfOnes(nBits);
        WriteBits(nBits, Pow2(nBits) - 1);
      }
    }

    /** The shift and the loop of JumpToByteBoundary. (C++ leaves the shift by 64 undefined that
        happens when nothing is pending; the loop then does not look at the result.) */
    method EmitPendingBytes(ghost pending: nat)
      requires Valid() && freeBits == 64 - 8 * pending
      modifies this`data, this`putBuffer, this`freeBits, this`words
      ensures outputPos <= |data| && dest.written + data[outputPos..] == base + Stuff(words)
      ensures BitsOfBytes(words) == old(Bits())
    {
      ghost var all, left := Bits(), pending;
      ShiftedToTop(words, putBuffer, freeBits);
      putBuffer := Shl(putBuffer, freeBits);
      while freeBits <= 56
        invariant 0 <= left && 0 <= freeBits == 64 - 8 * left && outputPos <= |data|
        invariant dest.written + data[outputPos..] == base + Stuff(words)
        invariant TopBits(words, putBuffer, freeBits) == all
        decreases left
      {
        EmitTopByte();
        left := left - 1;
      }
    }

    /** The loop body of JumpToByteBoundary. */
    method EmitTopByte()
      requires 0 <= freeBits <= 56 && outputPos <= |data|
      requires dest.written + data[outputPos..] == base + Stuff(words)
      modifies this`data, this`putBuffer, this`freeBits, this`words
      ensures freeBits == old(freeBits) + 8
      ensures outputPos <= |data| && dest.written + data[outputPos..] == base + Stuff(words)
      ensures TopBits(words, putBuffer, freeBits) == old(TopBits(words, putBuffer, freeBits))
    {
      var c := putBuffer / 0x100_0000_0000_0000 % 256;
      TopByteOut(words, putBuffer, freeBits, c);
      EmitByte(c);
      StreamGrows(base, words, [c], dest.written, old(data), data, outputPos);
      words := words + [c];
      putBuffer := Shl(putBuffer, 8);
      freeBits := freeBits + 8;
    }

    method EmitMarker(marker: Byte)
      requires Valid() && Bits() == []
      modifies this`data, this`base
      ensures Valid() && Bits() == []
      ensures base == old(base) + [0xFF, marker]
    {
      data := data + [0xFF, marker];
      base := base + [0xFF, marker];
      assert dest.written + data[outputPos..] == dest.written + old(data)[outputPos..] + [0xFF, marker];
    }

    /** Copies the buffered bytes to the application, buffer by buffer. On suspension it remembers
        how far it got. */
    method EmptyBitWriterBuffer() returns (ok: bool)
      requires Valid()
      modifies this`data, this`outputPos, dest
      ensures Valid()
      ensures ok ==> data == [] && outputPos == 0 && dest.written == base + Stuff(words)
      ensures !ok ==> data == old(data) && old(outputPos) <= outputPos < |data|
      ensures !ok ==> dest.written == old(dest.written) + data[old(outputPos)..outputPos]
      ensures !ok ==> dest.freeInBuffer == 0 && dest.refills == []
    {
      assert data[outputPos..outputPos] == [];
      while outputPos < |data|
        invariant data == old(data) && old(outputPos) <= outputPos <= |data|
        invariant dest.written == old(dest.written) + data[old(outputPos)..outputPos]
        decreases |dest.refills|, |data| - outputPos
      {
        if dest.freeInBuffer == 0 {
          var filled := dest.EmptyOutputBuffer();
          if !filled {
            SplitCopy(old(dest.written), data, old(outputPos), outputPos);
            return false;
          }
        }
        var bufLen := |data| - outputPos;
        var copyLen := if dest.freeInBuffer < bufLen then dest.freeInBuffer else bufLen;
        CopyStep(old(dest.written), data, old(outputPos), outputPos, copyLen);
        dest.written := dest.written + data[outputPos..outputPos + copyLen];
        outputPos := outputPos + copyLen;
        dest.freeInBuffer := dest.freeInBuffer - copyLen;
      }
      SplitCopy(old(dest.written), data, old(outputPos), outputPos);
      outputPos := 0;
      data := [];
      return true;
    }
  }

  function OrWord(a: uint64, b: uint64): uint64 {
    Pow2Of64();
    Or(a, b, 64)
  }

  /** The word that is discharged when only `free` of the nbits bits still fit. */
  function FullWord(put: uint64, free: nat, nbits: nat, bits: uint64): uint64
    requires free <= nbits
  {
    OrWord(Shl(put, free), Shr(bits, nbits - free))
  }

  function PendingBits(words: seq<Byte>, put: uint64, free: int): Bits
    requires 0 <= free <= 64
  {
    BitsOfBytes(words) + Low(put, 64 - free)
  }

  lemma LowOfNothing(x: nat)
    ensures Low(x, 0) == []
  {
  }

  /** Writing nbits bits into the free part of the word appends these bits. */
  lemma PendingBitsWithin(words: seq<Byte>, put: uint64, free: int, nbits: nat, bits: uint64)
    requires nbits <= free <= 64 && bits < Pow2(nbits)
    ensures PendingBits(words, OrWord(Shl(put, nbits), bits), free - nbits)
         == PendingBits(words, put, free) + Low(bits, nbits)
  {
    LowOfShiftedOr(put, 64 - free, bits, nbits);
    Associate(BitsOfBytes(words), Low(put, 64 - free), Low(bits, nbits));
  }

  /** So does writing them across two words, although the refilled put buffer starts from the
      value nbits and repeats bits of the full word. */
  lemma PendingBitsAcross(words: seq<Byte>, put: uint64, free: int, nbits: nat, bits: uint64)
    requires 0 <= free < nbits <= 63 && bits < Pow2(nbits)
    ensures PendingBits(words + WordBytes(FullWord(put, free, nbits, bits)), OrWord(Shl(nbits, nbits), bits), free - nbits + 64)
         == PendingBits(words, put, free) + Low(bits, nbits)
  {
    hide Shl, Shr, Low, OrWord, Pow2, BitsOfBytes, WordBytes, FullWord;
    var full, rest := FullWord(put, free, nbits, bits), nbits - free;
    FullWordBits(put, free, nbits, bits);
    RefilledBits(bits, nbits, rest);
    BitsOfBytesConcat(words, WordBytes(full));
    Regroup(BitsOfBytes(words), Low(put, 64 - free), Low(Shr(bits, rest), free), Low(bits, rest));
  }

  lemma FullWordBits(put: uint64, free: nat, nbits: nat, bits: uint64)
    requires free <= nbits <= 63 && bits < Pow2(nbits)
    ensures BitsOfBytes(WordBytes(FullWord(put, free, nbits, bits)))
         == Low(put, 64 - free) + Low(Shr(bits, nbits - free), free)
    ensures Low(bits, nbits) == Low(Shr(bits, nbits - free), free) + Low(bits, nbits - free)
  {
    var rest := nbits - free;
    ShiftedOutFits(bits, nbits, rest);
    LowOfShiftedOr(put, 64 - free, Shr(bits, rest), free);
    WordBytesBits(FullWord(put, free, nbits, bits));
    ShrAsQuotient(bits, rest);
    LowSplit(bits, free, rest);
  }

  lemma RefilledBits(bits: uint64, nbits: nat, rest: nat)
    requires rest <= nbits <= 63 && bits < Pow2(nbits)
    ensures Low(OrWord(Shl(nbits, nbits), bits), rest) == Low(bits, rest)
  {
    LowOfShiftedOr(nbits, 0, bits, nbits);
    SuffixOfLow(OrWord(Shl(nbits, nbits), bits), nbits, rest);
    SuffixOfLow(bits, nbits, rest);
  }

  lemma Regroup<T>(a: seq<T>, b: seq<T>, c: seq<T>, d: seq<T>)
    ensures (a + (b + c)) + d == (a + b) + (c + d)
  {
  }

  lemma StuffPrefix(d: seq<Byte>, w: seq<Byte>, i: nat)
    requires i < |w|
    ensures d + Stuff(w[..i]) + Stuff([w[i]]) == d + Stuff(w[..i + 1])
  {
    assert w[..i + 1] == w[..i] + [w[i]];
    StuffConcat(w[..i], [w[i]]);
  }

  lemma {:induction false} LowOfOnes(n: nat)
    requires n <= 8
    ensures Low(Pow2(n) - 1, n) == Ones(n) && Pow2(n) <= 256
  {
    Pow2Of8();
    Pow2Mono(n, 8);
    if n > 0 {
      LowOfOnes(n - 1);
      assert Ones(n) == Ones(n - 1) + [true];
    }
  }

  /** The pending bits once they were shifted to the top of the word. */
  function TopBits(words: seq<Byte>, put: uint64, free: int): Bits
    requires 0 <= free <= 64
  {
    BitsOfBytes(words) + Low(put, 64)[..64 - free]
  }

  lemma LowOfShl(put: uint64, used: nat)
    requires used <= 64
    ensures Low(Shl(put, 64 - used), 64)[..used] == Low(put, used)
  {
    Pow2Of64();
    ShlAsProduct(put, 64 - used);
    LowOfMod(put * Pow2(64 - used), 64, 64);
    LowOfMultiple(put, used, 64 - used);
  }

  lemma ShiftedToTop(words: seq<Byte>, put: uint64, free: int)
    requires 0 <= free <= 64
    ensures TopBits(words, Shl(put, free), free) == PendingBits(words, put, free)
  {
    LowOfShl(put, 64 - free);
  }

  lemma PaddingFromFree(words: nat, free: int)
    requires 0 <= free <= 64
    ensures Padding(8 * words + 64 - free) == free % 8
    ensures free - free % 8 == 64 - 8 * ((64 - free + free % 8) / 8)
  {
  }

  lemma CopyStep(written: seq<Byte>, data: seq<Byte>, from: nat, at: nat, n: nat)
    requires from <= at && at + n <= |data|
    ensures written + data[from..at] + data[at..at + n] == written + data[from..at + n]
  {
  }

  lemma SplitCopy(written: seq<Byte>, data: seq<Byte>, from: nat, at: nat)
    requires from <= at <= |data|
    ensures written + data[from..at] + data[at..] == written + data[from..]
  {
  }

  lemma TopByte(put: uint64, c: Byte)
    requires c == put / 0x100_0000_0000_0000 % 256
    ensures Low(put, 64) == ByteBits(c) + Low(put, 56)
  {
    Pow2Of56();
    LowSplit(put, 8, 56);
    Pow2Of8();
    LowOfMod(put / 0x100_0000_0000_0000, 8, 8);
  }

  /** Taking the top byte off the word. */
  lemma TopByteOut(words: seq<Byte>, put: uint64, free: int, c: Byte)
    requires 0 <= free <= 56 && c == put / 0x100_0000_0000_0000 % 256
    ensures TopBits(words + [c], Shl(put, 8), free + 8) == TopBits(words, put, free)
  {
    TopByte(put, c);
    LowOfShl(put, 56);
    SingleByte(words, c);
    MoveByte(BitsOfBytes(words), ByteBits(c), Low(put, 56), Low(put, 64), Low(Shl(put, 8), 64), 64 - free);
  }

  lemma SingleByte(words: seq<Byte>, c: Byte)
    ensures BitsOfBytes(words + [c]) == BitsOfBytes(words) + ByteBits(c)
  {
    BitsOfBytesConcat(words, [c]);
    assert [c][1..] == [];
  }

  lemma MoveByte(w: Bits, b: Bits, t: Bits, before: Bits, after: Bits, used: nat)
    requires |b| == 8 && |t| == 56 && before == b + t && |after| == 64 && after[..56] == t && 8 <= used <= 64
    ensures (w + b) + after[..used - 8] == w + before[..used]
  {
    assert after[..used - 8] == t[..used - 8];
    assert before[..used] == b + t[..used - 8];
  }

  lemma Pow2Of56()
    ensures Pow2(56) == 0x100_0000_0000_0000
  {
    Pow2Of64();
    Pow2Of8();
    Pow2Sum(56, 8);
  }

  lemma NoFFByte(x: uint64)
    requires HasZeroByte(Not(x)) == 0
    ensures Stuff(WordBytes(x)) == WordBytes(x)
  {
    HasZeroByteIff(Not(x));
    BytesOfNot(x);
    forall i | 0 <= i < 8
      ensures WordBytes(x)[i] != 0xFF
    {
      assert WordBytes(Not(x))[i] != 0;
    }
    StuffWithoutFF(WordBytes(x));
  }

  lemma ShiftedOutFits(bits: uint64, n: nat, rest: nat)
    requires rest <= n && bits < Pow2(n)
    ensures Shr(bits, rest) < Pow2(n - rest)
  {
    var p, q := Pow2(rest), Pow2(n - rest);
    Pow2Sum(n - rest, rest);
    ShrAsQuotient(bits, rest);
    QuotientBound(bits, p, q);
  }

  lemma SuffixOfLow(x: nat, n: nat, k: nat)
    requires k <= n
    ensures Low(x, k) == Low(x, n)[n - k..]
  {
    LowSplit(x, n - k, k);
  }

  lemma StreamGrows(base: seq<Byte>, words: seq<Byte>, w: seq<Byte>, written: seq<Byte>,
                    before: seq<Byte>, after: seq<Byte>, outputPos: nat)
    requires outputPos <= |before| && written + before[outputPos..] == base + Stuff(words)
    requires after == before + Stuff(w)
    ensures written + after[outputPos..] == base + Stuff(words + w)
  {
    StuffConcat(words, w);
    assert after[outputPos..] == before[outputPos..] + Stuff(w);
    Associate(written, before[outputPos..], Stuff(w));
    Associate(base, Stuff(words), Stuff(w));
  }

  lemma Associate<T>(a: seq<T>, b: seq<T>, c: seq<T>)
    ensures (a + b) + c == a + (b + c)
  {
  }
}
