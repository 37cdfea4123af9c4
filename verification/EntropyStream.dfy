/**
 The bytes and bits that the decoder's bit reader takes from an entropy-coded segment: the stuffing is
 removed, and nothing but padding follows a marker or the end of the data.
 */
module EntropyStream {
  import opened Arithmetic
  import opened BitStrings
  import opened EntropyBytes

  /** A marker starts at pos: FF and a byte that is not 0. */
  predicate AtMarker(data: seq<Byte>, pos: nat) {
    pos + 1 < |data| && data[pos] == 0xFF && data[pos + 1] != 0
  }

  /** There is a byte of the segment at pos. */
  predicate More(data: seq<Byte>, pos: nat) {
    pos < |data| && !AtMarker(data, pos)
  }

  /** The position after the byte at pos and its stuffing; a final FF counts as stuffed. */
  function Next(data: seq<Byte>, pos: nat): nat
    requires pos < |data|
  {
    if data[pos] == 0xFF then pos + 2 else pos + 1
  }

  /** The bytes of the segment from pos on. */
  function Bytes(data: seq<Byte>, pos: nat): seq<Byte>
    decreases |data| - pos
  {
    if More(data, pos) then [data[pos]] + Bytes(data, Next(data, pos)) else []
  }

  /** The position of the reader after k bytes; past the end of the segment it goes on in steps of one. */
  function PosAt(data: seq<Byte>, pos: nat, k: nat): nat
    decreases k
  {
    if k == 0 then pos
    else if More(data, pos) then PosAt(data, Next(data, pos), k - 1)
    else pos + k
  }

  function EndOf(data: seq<Byte>, pos: nat): nat {
    PosAt(data, pos, |Bytes(data, pos)|)
  }

  /** Byte number k that the reader returns: after the segment the FF of a marker, then zeros. */
  function ByteAt(data: seq<Byte>, pos: nat, k: nat): Byte {
    var bs := Bytes(data, pos);
    if k < |bs| then bs[k] else if k == |bs| && EndOf(data, pos) < |data| then 0xFF else 0
  }

  /** What the reader knows after k bytes about the place of the next marker; the end of the data if nothing. */
  function KnownMarker(data: seq<Byte>, pos: nat, k: nat): nat {
    if k > |Bytes(data, pos)| && EndOf(data, pos) < |data| then EndOf(data, pos) else |data|
  }

  function Bit(data: seq<Byte>, pos: nat, i: nat): bool {
    ByteBits(ByteAt(data, pos, i / 8))[i % 8]
  }

  /** The n bits from bit number c on. */
  function Stream(data: seq<Byte>, pos: nat, c: nat, n: nat): (s: Bits)
    ensures |s| == n
  {
    seq(n, i requires 0 <= i < n => Bit(data, pos, c + i))
  }

  // ---------------------------------------------------------------- lemmas

  lemma StreamConcat(data: seq<Byte>, pos: nat, c: nat, n: nat, m: nat)
    ensures Stream(data, pos, c, n + m) == Stream(data, pos, c, n) + Stream(data, pos, c + n, m)
  {
  }

  lemma StreamSlice(data: seq<Byte>, pos: nat, c: nat, n: nat, k: nat)
    requires k <= n
    ensures Stream(data, pos, c, n)[k..] == Stream(data, pos, c + k, n - k)
    ensures Stream(data, pos, c, n)[..k] == Stream(data, pos, c, k)
  {
  }

  lemma StreamOfByte(data: seq<Byte>, pos: nat, k: nat)
    ensures Stream(data, pos, 8 * k, 8) == ByteBits(ByteAt(data, pos, k)) == Low(ByteAt(data, pos, k), 8)
  {
    var s := Stream(data, pos, 8 * k, 8);
    forall i | 0 <= i < 8
      ensures s[i] == ByteBits(ByteAt(data, pos, k))[i]
    {
      assert (8 * k + i) / 8 == k && (8 * k + i) % 8 == i;
      assert s[i] == Bit(data, pos, 8 * k + i);
    }
  }

  /** Where the reader is while it is inside the segment, and the byte there. */
  lemma {:induction false} Inside(data: seq<Byte>, pos: nat, k: nat)
    requires k < |Bytes(data, pos)|
    ensures var p := PosAt(data, pos, k);
      && pos <= p && More(data, p) && data[p] == Bytes(data, pos)[k] && PosAt(data, pos, k + 1) == Next(data, p)
      && Bytes(data, p) == Bytes(data, pos)[k..]
    decreases k
  {
    if k > 0 {
      Inside(data, Next(data, pos), k - 1);
    } else {
      assert PosAt(data, Next(data, pos), 0) == Next(data, pos);
    }
  }

  /** At its end: a marker, the end of the data, or one past it after a final FF. */
  lemma {:induction false} AtEnd(data: seq<Byte>, pos: nat)
    requires pos <= |data|
    ensures var e := EndOf(data, pos); !More(data, e) && pos <= e <= |data| + 1 && Bytes(data, e) == []
    ensures EndOf(data, pos) == |data| + 1 ==> 0 < |data| && data[|data| - 1] == 0xFF && |Bytes(data, pos)| > 0
    decreases |data| - pos
  {
    if More(data, pos) {
      var next := Next(data, pos);
      assert EndOf(data, pos) == PosAt(data, next, |Bytes(data, next)|);
      if next <= |data| {
        AtEnd(data, next);
      }
    }
  }

  lemma {:induction false} PastEnd(data: seq<Byte>, pos: nat, k: nat)
    requires k >= |Bytes(data, pos)|
    ensures PosAt(data, pos, k) == EndOf(data, pos) + (k - |Bytes(data, pos)|)
    decreases k
  {
    if More(data, pos) {
      PastEnd(data, Next(data, pos), k - 1);
    }
  }

  /** The position advances with every byte. */
  lemma {:induction false} PosGrows(data: seq<Byte>, pos: nat, k: nat)
    ensures PosAt(data, pos, k) < PosAt(data, pos, k + 1) <= PosAt(data, pos, k) + 2
  {
    if k < |Bytes(data, pos)| {
      Inside(data, pos, k);
    } else {
      PastEnd(data, pos, k);
      PastEnd(data, pos, k + 1);
    }
  }

  /** Whether the position has reached the known marker shows whether a byte of the segment, or the marker, is there. */
  lemma NextByte(data: seq<Byte>, pos: nat, k: nat)
    requires pos <= |data|
    ensures var p, n := PosAt(data, pos, k), |Bytes(data, pos)|;
      && (p >= KnownMarker(data, pos, k) <==> k > n || (k == n && EndOf(data, pos) >= |data|))
      && (k < n ==> More(data, p) && ByteAt(data, pos, k) == data[p] && PosAt(data, pos, k + 1) == Next(data, p))
      && (k == n && EndOf(data, pos) < |data| ==> AtMarker(data, p) && p == EndOf(data, pos))
      && (k >= n ==> PosAt(data, pos, k + 1) == p + 1)
  {
    var n := |Bytes(data, pos)|;
    AtEnd(data, pos);
    if k < n {
      Inside(data, pos, k);
    } else {
      PastEnd(data, pos, k);
      PastEnd(data, pos, k + 1);
    }
  }

  /** A reader that starts at the position of byte k goes on with byte k. */
  lemma Resumed(data: seq<Byte>, pos: nat, k: nat, j: nat)
    requires k <= |Bytes(data, pos)| && pos <= |data|
    ensures var p := PosAt(data, pos, k);
      && |Bytes(data, p)| == |Bytes(data, pos)| - k && EndOf(data, p) == EndOf(data, pos)
      && ByteAt(data, p, j) == ByteAt(data, pos, k + j)
  {
    if k < |Bytes(data, pos)| {
      Inside(data, pos, k);
    } else {
      AtEnd(data, pos);
    }
    PosSum(data, pos, k, |Bytes(data, pos)| - k);
  }

  lemma {:induction false} PosSum(data: seq<Byte>, pos: nat, k: nat, j: nat)
    requires k <= |Bytes(data, pos)|
    ensures PosAt(data, pos, k + j) == PosAt(data, PosAt(data, pos, k), j)
    decreases k
  {
    if k > 0 {
      PosSum(data, Next(data, pos), k - 1, j);
    }
  }

  lemma ResumedStream(data: seq<Byte>, pos: nat, k: nat, c: nat, n: nat)
    requires k <= |Bytes(data, pos)| && pos <= |data|
    ensures Stream(data, PosAt(data, pos, k), c, n) == Stream(data, pos, 8 * k + c, n)
  {
    var p := PosAt(data, pos, k);
    forall i | 0 <= i < n
      ensures Stream(data, p, c, n)[i] == Stream(data, pos, 8 * k + c, n)[i]
    {
      var j := c + i;
      assert (8 * k + j) / 8 == k + j / 8 && (8 * k + j) % 8 == j % 8;
      Resumed(data, pos, k, j / 8);
      assert Stream(data, p, c, n)[i] == Bit(data, p, j) == Bit(data, pos, 8 * k + j);
      assert 8 * k + c + i == 8 * k + j;
    }
  }

  // ---------------------------------------------------------------- giving bytes back

  /** pos would be taken for the position after the FF of a stuffed pair. */
  predicate AfterFF(data: seq<Byte>, pos: nat) {
    0 < pos <= |data| && data[pos - 1] == 0xFF && (pos == |data| || data[pos] == 0)
  }

  /** The byte before the one at pos is given back: two positions if it was stuffed. */
  function GivenBack(data: seq<Byte>, marker: nat, pos: nat): nat
    requires 0 < pos && 0 < |data| && marker <= |data|
  {
    var p := pos - 1;
    if ((p == |data| && p == marker) || (0 < p < marker && data[p] == 0)) && data[p - 1] == 0xFF then p - 1 else p
  }

  lemma PosIsNoStuffing(data: seq<Byte>, pos: nat, k: nat)
    requires (!AfterFF(data, pos) || k > 0) && k <= |Bytes(data, pos)|
    ensures !AfterFF(data, PosAt(data, pos, k))
  {
    if k > 0 {
      Inside(data, pos, k - 1);
    }
  }

  /** Giving back undoes taking a byte, also past the end; but not the first byte if it comes after an FF. */
  lemma GivenBackIsTaken(data: seq<Byte>, pos: nat, k: nat, fetched: nat)
    requires pos <= |data| && 0 < |data| && (!AfterFF(data, pos) || k > 0) && k < fetched
    ensures PosAt(data, pos, k + 1) > 0
    ensures GivenBack(data, KnownMarker(data, pos, fetched), PosAt(data, pos, k + 1)) == PosAt(data, pos, k)
  {
    var n := |Bytes(data, pos)|;
    AtEnd(data, pos);
    if k <= n {
      PosIsNoStuffing(data, pos, k);
    }
    if k < n {
      Inside(data, pos, k);
      PosBelowEnd(data, pos, k + 1);
    } else {
      PastEnd(data, pos, k);
      PastEnd(data, pos, k + 1);
    }
  }

  /** After an FF, giving back the first byte goes one position too far. */
  lemma GivenBackTooFar(data: seq<Byte>, pos: nat, fetched: nat)
    requires AfterFF(data, pos) && 0 < fetched
    ensures PosAt(data, pos, 1) > 0 && GivenBack(data, KnownMarker(data, pos, fetched), PosAt(data, pos, 1)) == pos - 1
    ensures pos <= KnownMarker(data, pos, fetched)
  {
    assert PosAt(data, pos, 1) == pos + 1;
    AtEnd(data, pos);
    if |Bytes(data, pos)| > 0 {
      PosBelowEnd(data, pos, 0);
    }
  }

  /** The position after giving back all but k of the bytes that were fetched. */
  function Resting(data: seq<Byte>, pos: nat, k: nat, fetched: nat): nat {
    if k == 0 < fetched && AfterFF(data, pos) then pos - 1 else PosAt(data, pos, k)
  }

  lemma GivenBackRests(data: seq<Byte>, pos: nat, k: nat, fetched: nat)
    requires pos <= |data| && 0 < |data| && k < fetched
    ensures Resting(data, pos, k + 1, fetched) > 0
    ensures GivenBack(data, KnownMarker(data, pos, fetched), Resting(data, pos, k + 1, fetched)) == Resting(data, pos, k, fetched)
  {
    if k == 0 && AfterFF(data, pos) {
      GivenBackTooFar(data, pos, fetched);
    } else {
      GivenBackIsTaken(data, pos, k, fetched);
    }
  }

  lemma {:induction false} PosBelowEnd(data: seq<Byte>, pos: nat, k: nat)
    requires k <= |Bytes(data, pos)|
    ensures PosAt(data, pos, k) <= EndOf(data, pos)
    ensures k < |Bytes(data, pos)| ==> PosAt(data, pos, k) < EndOf(data, pos)
    decreases |Bytes(data, pos)| - k
  {
    if k < |Bytes(data, pos)| {
      PosBelowEnd(data, pos, k + 1);
      PosGrows(data, pos, k);
    }
  }

  // ---------------------------------------------------------------- what a writer stuffed

  /** Reading stuffed bytes up to the end of the data or the next marker gives back the bytes. */
  lemma {:induction false} BytesOfStuffed(before: seq<Byte>, bs: seq<Byte>, after: seq<Byte>)
    requires after == [] || (|after| >= 2 && after[0] == 0xFF && after[1] != 0)
    ensures Bytes(before + Stuff(bs) + after, |before|) == bs
    ensures EndOf(before + Stuff(bs) + after, |before|) == |before| + |Stuff(bs)|
    decreases |bs|
  {
    var data := before + Stuff(bs) + after;
    if bs != [] {
      var first := if bs[0] == 0xFF then [0xFF, 0] else [bs[0]];
      assert data == (before + first) + Stuff(bs[1..]) + after;
      BytesOfStuffed(before + first, bs[1..], after);
      assert More(data, |before|) && Next(data, |before|) == |before + first|;
    }
  }
}
