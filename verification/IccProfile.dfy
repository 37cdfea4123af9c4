/** The layout of ICC profiles (lib/cms/jpegli_cms_internal.h): tag bodies and the tag table grow step by step,
    offsets are filled in at the end. What a tag contains is a parameter. */
module IccProfile {
  import opened Arithmetic
  import opened IccBytes

  const HEADER_SIZE := 128

  /** A four-character signature. */
  function Signature(tag: string): (b: seq<Byte>)
    requires |tag| == 4
    ensures |b| == 4
  {
    [tag[0] as int % 256, tag[1] as int % 256, tag[2] as int % 256, tag[3] as int % 256]
  }

  /** An entry of the tag table: its signature, and where its body begins among the tag bodies. */
  datatype Entry = Entry(signature: seq<Byte>, offset: nat, body: seq<Byte>)

  /** A body, padded to a multiple of four bytes. */
  function Padded(body: seq<Byte>): (p: seq<Byte>)
    ensures |p| % 4 == 0
  {
    body + Zeros((4 - |body| % 4) % 4)
  }

  /** The entry i of the table holds this signature and size; its offset is not filled in yet. */
  ghost predicate InTable(tagtable: seq<Byte>, i: nat, e: Entry) {
    && 4 + 12 * i + 12 <= |tagtable| && |e.signature| == 4
    && Piece(tagtable, 4 + 12 * i, 4) == e.signature
    && Piece(tagtable, 4 + 12 * i + 8, 4) == Uint32(|e.body|)
  }

  ghost predicate InTags(tags: seq<Byte>, e: Entry) {
    && e.offset % 4 == 0 && |e.body| % 4 == 0 && e.offset + |e.body| <= |tags|
    && Piece(tags, e.offset, |e.body|) == e.body
  }

  /** The two curves that share the body of the one before them. */
  ghost predicate SharesCurve(signature: seq<Byte>) {
    signature == Signature("gTRC") || signature == Signature("bTRC")
  }

  /** The bodies follow each other without gaps; only curves share the body of the entry before them. */
  ghost predicate Tiled(entries: seq<Entry>) {
    && (entries != [] ==> entries[0].offset == 0)
    && (forall i :: 0 < i < |entries| ==>
          entries[i].offset == entries[i - 1].offset + |entries[i - 1].body|
          || (SharesCurve(entries[i].signature) && entries[i].offset == entries[i - 1].offset && entries[i].body == entries[i - 1].body))
  }

  ghost predicate TableHolds(tagtable: seq<Byte>, entries: seq<Entry>) {
    |tagtable| == 4 + 12 * |entries| && forall i :: 0 <= i < |entries| ==> InTable(tagtable, i, entries[i])
  }

  ghost predicate TagsHold(tags: seq<Byte>, entries: seq<Entry>) {
    forall i :: 0 <= i < |entries| ==> InTags(tags, entries[i])
  }

  /** A new entry at the end of the table. */
  lemma EntryAppended(tagtable: seq<Byte>, entries: seq<Entry>, e: Entry)
    requires TableHolds(tagtable, entries) && |e.signature| == 4
    ensures TableHolds(tagtable + e.signature + Uint32(0) + Uint32(|e.body|), entries + [e])
  {
    hide Uint32;
    var longer := tagtable + e.signature + Uint32(0) + Uint32(|e.body|);
    forall i | 0 <= i < |entries| + 1
      ensures InTable(longer, i, (entries + [e])[i])
    {
      if i < |entries| {
        assert InTable(tagtable, i, entries[i]);
        assert longer[4 + 12 * i..4 + 12 * i + 4] == tagtable[4 + 12 * i..4 + 12 * i + 4];
        assert longer[4 + 12 * i + 8..4 + 12 * i + 12] == tagtable[4 + 12 * i + 8..4 + 12 * i + 12];
      }
    }
  }

  lemma TagsGrow(tags: seq<Byte>, more: seq<Byte>, entries: seq<Entry>)
    requires TagsHold(tags, entries)
    ensures TagsHold(tags + more, entries)
  {
    forall i | 0 <= i < |entries|
      ensures InTags(tags + more, entries[i])
    {
      var e := entries[i];
      assert InTags(tags, e);
      assert (tags + more)[e.offset..e.offset + |e.body|] == tags[e.offset..e.offset + |e.body|];
    }
  }

  lemma PadCount(n: nat, m: nat)
    requires n <= m <= n + (4 - n % 4) % 4 && m % 4 == 0
    ensures m - n == (4 - n % 4) % 4
  {
  }

  lemma PadStep(n: nat, m: nat)
    requires n <= m <= n + (4 - n % 4) % 4 && m % 4 != 0
    ensures m + 1 <= n + (4 - n % 4) % 4 && m < n + 4
  {
  }

  /** The end of the last entry is the end of the bodies. */
  ghost predicate EndsAt(entries: seq<Entry>, offset: nat, size: nat, end: nat) {
    offset + size == end &&
    if entries == [] then end == 0
    else entries[|entries| - 1].offset == offset && |entries[|entries| - 1].body| == size
  }

  lemma SumOfMultiples(a: nat, b: nat)
    requires a % 4 == 0 && b % 4 == 0
    ensures (a + b) % 4 == 0
  {
  }

  lemma BodyAppended(tags: seq<Byte>, entries: seq<Entry>, offset: nat, size: nat, e: Entry)
    requires TagsHold(tags, entries) && Tiled(entries) && EndsAt(entries, offset, size, |tags|)
    requires e.offset == |tags| && |tags| % 4 == 0 && |e.body| % 4 == 0
    ensures TagsHold(tags + e.body, entries + [e]) && Tiled(entries + [e])
    ensures EndsAt(entries + [e], e.offset, |e.body|, |tags + e.body|) && |tags + e.body| % 4 == 0
  {
    TagsGrow(tags, e.body, entries);
    SumOfMultiples(|tags|, |e.body|);
    assert (tags + e.body)[e.offset..e.offset + |e.body|] == e.body;
  }

  lemma LastBody(tags: seq<Byte>, entries: seq<Entry>, offset: nat, size: nat)
    requires TagsHold(tags, entries) && EndsAt(entries, offset, size, |tags|) && entries != []
    ensures tags[offset..] == entries[|entries| - 1].body
  {
    assert InTags(tags, entries[|entries| - 1]);
  }

  /** Padding the vector pads the body, as the vector had been padded before. */
  lemma PaddedEnd(tags: seq<Byte>, body: seq<Byte>)
    requires |tags| % 4 == 0
    ensures tags + body + Zeros((4 - |tags + body| % 4) % 4) == tags + Padded(body)
  {
    assert |tags + body| % 4 == |body| % 4;
  }

  lemma BodyShared(tags: seq<Byte>, entries: seq<Entry>, offset: nat, size: nat, e: Entry)
    requires TagsHold(tags, entries) && Tiled(entries) && EndsAt(entries, offset, size, |tags|) && entries != []
    requires var last := entries[|entries| - 1]; SharesCurve(e.signature) && e.offset == last.offset && e.body == last.body
    ensures TagsHold(tags, entries + [e]) && Tiled(entries + [e])
    ensures EndsAt(entries + [e], offset, size, |tags|)
  {
    assert InTags(tags, entries[|entries| - 1]);
  }

  /** The vectors of the profile while it is built. */
  class ProfileWriter {
    var tagtable: seq<Byte>
    var tags: seq<Byte>
    var offsets: seq<nat>
    var tagOffset: nat
    var tagSize: nat
    ghost var entries: seq<Entry>

    constructor ()
      ensures Valid() && entries == [] && tags == []
    {
      tagtable := WriteAt([], 0, Uint32(0));
      tags, offsets, tagOffset, tagSize := [], [], 0, 0;
      entries := [];
    }

    ghost predicate Valid()
      reads this
    {
      && TableHolds(tagtable, entries) && TagsHold(tags, entries) && Tiled(entries)
      && |offsets| == |entries| && (forall i :: 0 <= i < |offsets| ==> offsets[i] == entries[i].offset)
      && |tags| % 4 == 0 && EndsAt(entries, tagOffset, tagSize, |tags|)
    }

    /** Padding; what has been appended since the last call is the current tag. */
    method FinalizeICCTag()
      requires tagOffset + tagSize <= |tags|
      modifies this`tags, this`tagOffset, this`tagSize
      ensures tagOffset == old(tagOffset) + old(tagSize) && tagOffset + tagSize == |tags|
      ensures tags == old(tags) + Zeros((4 - |old(tags)| % 4) % 4)
    {
      hide TableHolds, TagsHold, Tiled;
      while |tags| % 4 != 0
        invariant tagOffset == old(tagOffset) && tagSize == old(tagSize)
        invariant |tags| >= |old(tags)| && tags == old(tags) + Zeros(|tags| - |old(tags)|)
        invariant |tags| - |old(tags)| <= (4 - |old(tags)| % 4) % 4
        decreases |old(tags)| + 4 - |tags|
      {
        PadStep(|old(tags)|, |tags|);
        tags := tags + [0];
      }
      PadCount(|old(tags)|, |tags|);
      tagOffset := tagOffset + tagSize;
      tagSize := |tags| - tagOffset;
    }

    /** An entry for the current tag; its offset follows later. */
    method AddToICCTagTable(tag: string)
      requires |tag| == 4 && TableHolds(tagtable, entries)
      requires tagOffset + tagSize == |tags|
      modifies this`tagtable, this`offsets, this`entries
      ensures entries == old(entries) + [Entry(Signature(tag), tagOffset, tags[tagOffset..])]
      ensures TableHolds(tagtable, entries) && offsets == old(offsets) + [tagOffset]
    {
      hide TableHolds, Uint32, Signature;
      ghost var e := Entry(Signature(tag), tagOffset, tags[tagOffset..]);
      EntryAppended(tagtable, entries, e);
      WriteAtEnd(tagtable, Signature(tag));
      tagtable := WriteAt(tagtable, |tagtable|, Signature(tag));
      WriteAtEnd(tagtable, Uint32(0));
      tagtable := WriteAt(tagtable, |tagtable|, Uint32(0));
      offsets := offsets + [tagOffset];
      WriteAtEnd(tagtable, Uint32(tagSize));
      tagtable := WriteAt(tagtable, |tagtable|, Uint32(tagSize));
      entries := entries + [e];
    }

    /** A tag with a body of its own. */
    method AddTag(tag: string, body: seq<Byte>)
      requires Valid() && |tag| == 4
      modifies this
      ensures Valid() && entries == old(entries) + [Entry(Signature(tag), |old(tags)|, Padded(body))]
      ensures tags == old(tags) + Padded(body)
    {
      hide TableHolds, Signature, Tiled, TagsHold, SharesCurve, InTags, InTable, Uint32, Zeros;
      BodyAppended(tags, entries, tagOffset, tagSize, Entry(Signature(tag), |tags|, Padded(body)));
      tags := tags + body;
      FinalizeICCTag();
      PaddedEnd(old(tags), body);
      assert tags == old(tags) + Padded(body);
      AddToICCTagTable(tag);
    }

    /** A tag that shares the body of the one before it. */
    method AddSharedTag(tag: string)
      requires Valid() && tag in ["gTRC", "bTRC"] && entries != []
      modifies this
      ensures Valid() && tags == old(tags)
      ensures var last := old(entries)[|old(entries)| - 1];
              entries == old(entries) + [Entry(Signature(tag), last.offset, last.body)]
    {
      LastBody(tags, entries, tagOffset, tagSize);
      hide TableHolds, Signature, Tiled, TagsHold, SharesCurve, InTags, InTable, Uint32, Zeros;
      ghost var last := entries[|entries| - 1];
      BodyShared(tags, entries, tagOffset, tagSize, Entry(Signature(tag), last.offset, last.body));
      AddToICCTagTable(tag);
    }
  }
}
