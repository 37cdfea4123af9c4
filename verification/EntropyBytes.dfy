/**
 The byte format of an entropy-coded segment (sections B.1.1.5 and B.2.1 of ITU-T T.81):
 bit strings are padded with ones to whole bytes, every FF byte is followed by a stuffed 00,
 and consecutive segments are separated by the markers RST0, ..., RST7, RST0, ...
 */
module EntropyBytes {
  import opened Arithmetic
  import opened BitStrings

  // ---------------------------------------------------------------- writing

  /** The number with the given binary digits. */
  function ValueOf(s: Bits): (v: nat)
    ensures v < Pow2(|s|)
  {
    if s == [] then 0 else 2 * ValueOf(s[..|s| - 1]) + (if s[|s| - 1] then 1 else 0)
  }

  function PackBits(s: Bits): (bs: seq<Byte>)
    requires |s| % 8 == 0
    ensures |bs| == |s| / 8
  {
    if s == [] then [] else
      Pow2Of8();
      [ValueOf(s[..8])] + PackBits(s[8..])
  }

  function Stuff(bs: seq<Byte>): seq<Byte> {
    if bs == [] then [] else (if bs[0] == 0xFF then [0xFF, 0] else [bs[0]]) + Stuff(bs[1..])
  }

  /** The number of one bits that fill up the last byte. */
  function Padding(n: nat): (p: nat)
    ensures p < 8 && (n + p) % 8 == 0
  {
    (8 - n % 8) % 8
  }

  function Padded(s: Bits): (t: Bits)
    ensures |t| % 8 == 0
  {
    s + Ones(Padding(|s|))
  }

  function SegmentBytes(s: Bits): seq<Byte> {
    Stuff(PackBits(Padded(s)))
  }

  function RestartMarker(m: nat): seq<Byte> {
    [0xFF, 0xD0 + m % 8]
  }

  /** The first n segments, each followed by its restart marker. */
  function RestartedSegments(segs: seq<Bits>, n: nat): seq<Byte>
    requires n <= |segs|
  {
    if n == 0 then [] else
      RestartedSegments(segs, n - 1) + SegmentBytes(segs[n - 1]) + RestartMarker(n - 1)
  }

  /** A whole scan: all segments, separated by restart markers. */
  function ScanBytes(segs: seq<Bits>): seq<Byte>
    requires segs != []
  {
    RestartedSegments(segs, |segs| - 1) + SegmentBytes(segs[|segs| - 1])
  }

  // ---------------------------------------------------------------- reading

  /** One entropy-coded segment as a decoder sees it, and the marker code that ended it, if any. */
  datatype Segment = Segment(bytes: seq<Byte>, marker: int)

  datatype Parsed = Malformed | Segments(list: seq<Segment>)

  /** Splits a byte stream into entropy-coded segments: FF 00 stands for a byte FF, FF followed by
      a restart marker code ends a segment, and any other use of FF is an error. `cur` holds the
      bytes of the segment that is being read. */
  function ParseFrom(bs: seq<Byte>, cur: seq<Byte>): Parsed
    decreases |bs|
  {
    if bs == [] then Segments([Segment(cur, -1)])
    else if bs[0] != 0xFF then ParseFrom(bs[1..], cur + [bs[0]])
    else if |bs| == 1 then Malformed
    else if bs[1] == 0 then ParseFrom(bs[2..], cur + [0xFF])
    else if 0xD0 <= bs[1] <= 0xD7 then
      match ParseFrom(bs[2..], [])
      case Malformed => Malformed
      case Segments(list) => Segments([Segment(cur, bs[1])] + list)
    else Malformed
  }

  function ParseScan(bs: seq<Byte>): Parsed {
    ParseFrom(bs, [])
  }

  // ---------------------------------------------------------------- lemmas

  lemma {:induction false} ValueOfLow(x: nat, n: nat)
    requires x < Pow2(n)
    ensures ValueOf(Low(x, n)) == x
  {
    if n > 0 {
      assert Low(x, n)[..n - 1] == Low(x / 2, n - 1);
      ValueOfLow(x / 2, n - 1);
    }
  }

  lemma {:induction false} LowOfValue(s: Bits)
    ensures Low(ValueOf(s), |s|) == s
  {
    if s != [] {
      LowOfValue(s[..|s| - 1]);
    }
  }

  lemma {:induction false} PackBitsOfBytes(bs: seq<Byte>)
    ensures PackBits(BitsOfBytes(bs)) == bs
  {
    if bs != [] {
      var s := BitsOfBytes(bs);
      assert s[..8] == ByteBits(bs[0]) && s[8..] == BitsOfBytes(bs[1..]);
      Pow2Of8();
      ValueOfLow(bs[0], 8);
      PackBitsOfBytes(bs[1..]);
    }
  }

  lemma {:induction false} BitsOfPackedBytes(s: Bits)
    requires |s| % 8 == 0
    ensures BitsOfBytes(PackBits(s)) == s
  {
    if s != [] {
      Pow2Of8();
      LowOfValue(s[..8]);
      BitsOfPackedBytes(s[8..]);
      var bs := PackBits(s);
      assert bs[0] == ValueOf(s[..8]) && bs[1..] == PackBits(s[8..]);
      assert s == s[..8] + s[8..];
    }
  }

  lemma {:induction false} StuffConcat(a: seq<Byte>, b: seq<Byte>)
    ensures Stuff(a + b) == Stuff(a) + Stuff(b)
  {
    if a == [] {
      assert a + b == b;
    } else {
      assert (a + b)[1..] == a[1..] + b;
      StuffConcat(a[1..], b);
    }
  }

  lemma {:induction false} StuffWithoutFF(bs: seq<Byte>)
    requires 0xFF !in bs
    ensures Stuff(bs) == bs
  {
    if bs != [] {
      StuffWithoutFF(bs[1..]);
    }
  }

  /** Reading stuffed bytes gives back the bytes, whatever follows them. */
  lemma {:induction false} ParseStuffed(bs: seq<Byte>, rest: seq<Byte>, cur: seq<Byte>)
    ensures ParseFrom(Stuff(bs) + rest, cur) == ParseFrom(rest, cur + bs)
    decreases |bs|
  {
    if bs == [] {
      assert Stuff(bs) + rest == rest && cur + bs == cur;
    } else {
      var s, t := Stuff(bs) + rest, Stuff(bs[1..]) + rest;
      assert s == (if bs[0] == 0xFF then [0xFF, 0] else [bs[0]]) + t;
      assert bs[0] == 0xFF ==> s[2..] == t;
      assert bs[0] != 0xFF ==> s[1..] == t;
      ParseStuffed(bs[1..], rest, cur + [bs[0]]);
      assert cur + [bs[0]] + bs[1..] == cur + bs;
    }
  }

  /** What a decoder gets from a scan: one segment per encoded segment, its bits followed by
      fewer than eight ones, and restart markers that count modulo 8. */
  ghost predicate IsReadingOf(list: seq<Segment>, segs: seq<Bits>, first: nat) {
    |list| == |segs| &&
    forall i :: 0 <= i < |list| ==>
      && BitsOfBytes(list[i].bytes) == segs[i] + Ones(Padding(|segs[i]|))
      && list[i].marker == if i == |list| - 1 then -1 else 0xD0 + (first + i) % 8
  }

  /** The segments from k on, as ScanBytes writes them. */
  function ScanTail(segs: seq<Bits>, k: nat): seq<Byte>
    requires k < |segs|
    decreases |segs| - k
  {
    if k == |segs| - 1 then SegmentBytes(segs[k])
    else SegmentBytes(segs[k]) + RestartMarker(k) + ScanTail(segs, k + 1)
  }

  lemma Regroup(a: seq<Byte>, b: seq<Byte>, c: seq<Byte>, d: seq<Byte>)
    ensures (a + b + c) + d == a + (b + c + d)
  {
  }

  lemma {:induction false} ScanBytesAsTail(segs: seq<Bits>, k: nat)
    requires k < |segs|
    ensures ScanBytes(segs) == RestartedSegments(segs, k) + ScanTail(segs, k)
    decreases |segs| - k
  {
    if k < |segs| - 1 {
      ScanBytesAsTail(segs, k + 1);
      Regroup(RestartedSegments(segs, k), SegmentBytes(segs[k]), RestartMarker(k), ScanTail(segs, k + 1));
    }
  }

  lemma ParseLastSegment(s: Bits)
    ensures ParseScan(SegmentBytes(s)) == Segments([Segment(PackBits(Padded(s)), -1)])
  {
    var bs := PackBits(Padded(s));
    assert Stuff(bs) + [] == Stuff(bs) && [] + bs == bs;
    ParseStuffed(bs, [], []);
  }

  lemma ParseSegment(s: Bits, k: nat, rest: seq<Byte>)
    requires ParseScan(rest).Segments?
    ensures ParseScan(SegmentBytes(s) + RestartMarker(k) + rest)
         == Segments([Segment(PackBits(Padded(s)), 0xD0 + k % 8)] + ParseScan(rest).list)
  {
    var bs := PackBits(Padded(s));
    var t := RestartMarker(k) + rest;
    assert SegmentBytes(s) + RestartMarker(k) + rest == Stuff(bs) + t && [] + bs == bs;
    ParseStuffed(bs, t, []);
    assert t[2..] == rest;
  }

  lemma ReadingOfCons(s: Segment, list: seq<Segment>, segs: seq<Bits>, k: nat)
    requires segs != [] && list != []
    requires BitsOfBytes(s.bytes) == Padded(segs[0]) && s.marker == 0xD0 + k % 8
    requires IsReadingOf(list, segs[1..], k + 1)
    ensures IsReadingOf([s] + list, segs, k)
  {
    var all := [s] + list;
    forall i | 0 <= i < |all|
      ensures BitsOfBytes(all[i].bytes) == segs[i] + Ones(Padding(|segs[i]|))
      ensures all[i].marker == if i == |all| - 1 then -1 else 0xD0 + (k + i) % 8
    {
      if i > 0 {
        assert all[i] == list[i - 1] && segs[i] == segs[1..][i - 1];
      }
    }
  }

  lemma {:induction false} ParseTail(segs: seq<Bits>, k: nat)
    requires k < |segs|
    ensures ParseScan(ScanTail(segs, k)).Segments?
    ensures IsReadingOf(ParseScan(ScanTail(segs, k)).list, segs[k..], k)
    decreases |segs| - k
  {
    BitsOfPackedBytes(Padded(segs[k]));
    if k == |segs| - 1 {
      ParseLastSegment(segs[k]);
    } else {
      ParseTail(segs, k + 1);
      ParseSegment(segs[k], k, ScanTail(segs, k + 1));
      assert segs[k..][1..] == segs[k + 1..];
      ReadingOfCons(Segment(PackBits(Padded(segs[k])), 0xD0 + k % 8),
                    ParseScan(ScanTail(segs, k + 1)).list, segs[k..], k);
    }
  }

  /** Round trip: a decoder that splits a written scan at the markers and removes the stuffing
      finds exactly the bit strings that were written, in order. */
  lemma ParseOfScan(segs: seq<Bits>)
    requires segs != []
    ensures ParseScan(ScanBytes(segs)).Segments?
    ensures IsReadingOf(ParseScan(ScanBytes(segs)).list, segs, 0)
  {
    ScanBytesAsTail(segs, 0);
    assert RestartedSegments(segs, 0) + ScanTail(segs, 0) == ScanTail(segs, 0);
    ParseTail(segs, 0);
    assert segs[0..] == segs;
  }
}
