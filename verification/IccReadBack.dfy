/** A whole ICC profile, and the tag table as section 7.3 of ICC.1:2022 reads it: every tag is found
    (lib/cms/jpegli_cms_internal.h). */
module IccReadBack {
  import opened Arithmetic
  import opened IccBytes
  import opened IccProfile

  datatype ColorSpace = RGB | Gray | XYB | Unknown | Other
  datatype Primaries = SRGB | BT2100 | P3 | CustomPrimaries
  datatype WhitePoint = D65 | E | DCI | CustomWhite

  /** What decides which tags are written, and their contents. The transfer function is its code in ITU-T H.273;
      a pure gamma and an unknown function have none. */
  datatype Transfer = Coded(code: Byte) | Gamma | UnknownTransfer

  datatype Contents = Contents(
    colorSpace: ColorSpace, perceptual: bool, primaries: Primaries, white: WhitePoint, transfer: Transfer, toneMapped: bool,
    header: seq<Byte>, description: seq<Byte>, copyright: seq<Byte>, whitePoint: seq<Byte>, adaptation: seq<Byte>,
    red: seq<Byte>, green: seq<Byte>, blue: seq<Byte>, toLab: seq<Byte>, fromLab: seq<Byte>, curve: seq<Byte>, checksum: seq<Byte>)

  datatype Tag = Tag(signature: seq<Byte>, body: seq<Byte>)

  /** The primaries code of a cicp tag; 0 when the combination with the white point has none. */
  function PrimariesCode(p: Primaries, w: WhitePoint): Byte {
    if p.P3? then (if w.D65? then 12 else if w.DCI? then 11 else 0)
    else if p.CustomPrimaries? || !w.D65? then 0
    else if p.SRGB? then 1 else 9
  }

  predicate HasCicp(c: Contents) {
    c.colorSpace.RGB? && c.transfer.Coded? && PrimariesCode(c.primaries, c.white) != 0
  }

  function CicpBody(c: Contents): (b: seq<Byte>)
    requires HasCicp(c)
  {
    Signature("cicp") + Uint32(0) + [PrimariesCode(c.primaries, c.white), c.transfer.code, 0, 1]
  }

  /** The tags of a profile, in order. */
  function Expected(c: Contents): seq<Tag> {
    First(c) + Colorants(c) + Last(c)
  }

  function First(c: Contents): seq<Tag> {
    [Tag(Signature("desc"), Padded(c.description)), Tag(Signature("cprt"), Padded(c.copyright)), Tag(Signature("wtpt"), Padded(c.whitePoint))]
    + (if c.colorSpace.Gray? then [] else [Tag(Signature("chad"), Padded(c.adaptation))])
  }

  function Colorants(c: Contents): seq<Tag> {
    if c.colorSpace.RGB? then
      (if HasCicp(c) then [Tag(Signature("cicp"), Padded(CicpBody(c)))] else [])
      + [Tag(Signature("rXYZ"), Padded(c.red)), Tag(Signature("gXYZ"), Padded(c.green)), Tag(Signature("bXYZ"), Padded(c.blue))]
    else []
  }

  function Last(c: Contents): seq<Tag> {
    if c.colorSpace.XYB? || c.toneMapped then [Tag(Signature("A2B0"), Padded(c.toLab)), Tag(Signature("B2A0"), Padded(c.fromLab))]
    else if c.colorSpace.Gray? then [Tag(Signature("kTRC"), Padded(c.curve))]
    else [Tag(Signature("rTRC"), Padded(c.curve)), Tag(Signature("gTRC"), Padded(c.curve)), Tag(Signature("bTRC"), Padded(c.curve))]
  }

  /** The names of the tags, in order. */
  function Names(c: Contents): seq<string> {
    FirstNames(c) + ColorantNames(c) + LastNames(c)
  }

  function FirstNames(c: Contents): seq<string> {
    if c.colorSpace.Gray? then ["desc", "cprt", "wtpt"] else ["desc", "cprt", "wtpt", "chad"]
  }

  function ColorantNames(c: Contents): seq<string> {
    if !c.colorSpace.RGB? then [] else if HasCicp(c) then ["cicp", "rXYZ", "gXYZ", "bXYZ"] else ["rXYZ", "gXYZ", "bXYZ"]
  }

  function LastNames(c: Contents): seq<string> {
    if c.colorSpace.XYB? || c.toneMapped then ["A2B0", "B2A0"]
    else if c.colorSpace.Gray? then ["kTRC"] else ["rTRC", "gTRC", "bTRC"]
  }

  /** A tag whose signature is this name, character by character. */
  predicate Named(tag: Tag, name: string) {
    |tag.signature| == |name| == 4 && forall i :: 0 <= i < 4 ==> tag.signature[i] == name[i] as int
  }

  ghost predicate AllNamed(tags: seq<Tag>, names: seq<string>) {
    |tags| == |names| && forall k :: 0 <= k < |tags| ==> Named(tags[k], names[k])
  }

  lemma BothNamed(tags: seq<Tag>, names: seq<string>, more: seq<Tag>, moreNames: seq<string>)
    requires AllNamed(tags, names) && AllNamed(more, moreNames)
    ensures AllNamed(tags + more, names + moreNames)
  {
    hide Named;
  }

  lemma SignatureIsName(name: string)
    requires |name| == 4 && forall i :: 0 <= i < 4 ==> name[i] as int < 128
    ensures forall body :: Named(Tag(Signature(name), body), name)
  {
  }

  lemma FirstNamed(c: Contents)
    ensures AllNamed(First(c), FirstNames(c))
  {
    hide Signature, Named, Padded;
    SignatureIsName("desc");
    SignatureIsName("cprt");
    SignatureIsName("wtpt");
    SignatureIsName("chad");
  }

  lemma ColorantsNamed(c: Contents)
    ensures AllNamed(Colorants(c), ColorantNames(c))
  {
    hide Signature, Named, Padded, HasCicp, CicpBody;
    SignatureIsName("cicp");
    SignatureIsName("rXYZ");
    SignatureIsName("gXYZ");
    SignatureIsName("bXYZ");
  }

  lemma LastNamed(c: Contents)
    ensures AllNamed(Last(c), LastNames(c))
  {
    hide Signature, Named, Padded;
    SignatureIsName("A2B0");
    SignatureIsName("B2A0");
    SignatureIsName("kTRC");
    SignatureIsName("rTRC");
    SignatureIsName("gTRC");
    SignatureIsName("bTRC");
  }

  lemma ExpectedNames(c: Contents)
    ensures AllNamed(Expected(c), Names(c))
  {
    hide First, Colorants, Last, FirstNames, ColorantNames, LastNames, AllNamed;
    FirstNamed(c);
    ColorantsNamed(c);
    LastNamed(c);
    BothNamed(First(c), FirstNames(c), Colorants(c), ColorantNames(c));
    BothNamed(First(c) + Colorants(c), FirstNames(c) + ColorantNames(c), Last(c), LastNames(c));
  }

  // ---------------------------------------------------------------- reading

  function NumberAt(profile: seq<Byte>, pos: nat): nat
    requires pos + 4 <= |profile|
  {
    ReadUint32(Piece(profile, pos, 4))
  }

  function TagCount(profile: seq<Byte>): nat
    requires |profile| >= 132
  {
    NumberAt(profile, 128)
  }

  /** Entry i: signature, offset from the start of the profile, size. */
  function TagOffset(profile: seq<Byte>, i: nat): nat
    requires 132 + 12 * i + 12 <= |profile|
  {
    NumberAt(profile, 132 + 12 * i + 4)
  }

  function TagSize(profile: seq<Byte>, i: nat): nat
    requires 132 + 12 * i + 12 <= |profile|
  {
    NumberAt(profile, 132 + 12 * i + 8)
  }

  /** What a reader finds as tag i. */
  function ReadTag(profile: seq<Byte>, i: nat): Tag
    requires 132 + 12 * i + 12 <= |profile| && TagOffset(profile, i) + TagSize(profile, i) <= |profile|
  {
    Tag(Piece(profile, 132 + 12 * i, 4), Piece(profile, TagOffset(profile, i), TagSize(profile, i)))
  }

  // ---------------------------------------------------------------- filling in the offsets

  /** Entry i with its true offset. */
  ghost predicate Located(tagtable: seq<Byte>, i: nat, e: Entry, base: nat) {
    InTable(tagtable, i, e) && Piece(tagtable, 4 + 12 * i + 4, 4) == Uint32(e.offset + base)
  }

  /** What patching the offset of entry k does to entry i. */
  lemma PatchedEntry(tagtable: seq<Byte>, k: nat, number: seq<Byte>, i: nat, e: Entry, base: nat)
    requires |number| == 4 && 4 + 12 * k + 8 <= |tagtable| && InTable(tagtable, i, e)
    ensures var next := WriteAt(tagtable, 4 + 12 * k + 4, number);
            && InTable(next, i, e)
            && (i != k && Located(tagtable, i, e, base) ==> Located(next, i, e, base))
            && (i == k && number == Uint32(e.offset + base) ==> Located(next, i, e, base))
  {
    hide Uint32;
    WriteKeeps(tagtable, 4 + 12 * k + 4, number, 4 + 12 * i, 4 + 12 * i + 4);
    WriteKeeps(tagtable, 4 + 12 * k + 4, number, 4 + 12 * i + 8, 4 + 12 * i + 12);
    if i != k {
      WriteKeeps(tagtable, 4 + 12 * k + 4, number, 4 + 12 * i + 4, 4 + 12 * i + 8);
    }
    hide WriteAt;
  }

  lemma PatchOffset(tagtable: seq<Byte>, entries: seq<Entry>, k: nat, base: nat)
    requires k < |entries| && TableHolds(tagtable, entries) && Piece(tagtable, 0, 4) == Uint32(|entries|)
    requires forall i :: 0 <= i < k ==> Located(tagtable, i, entries[i], base)
    ensures var next := WriteAt(tagtable, 4 + 12 * k + 4, Uint32(entries[k].offset + base));
            && TableHolds(next, entries) && Piece(next, 0, 4) == Uint32(|entries|)
            && forall i :: 0 <= i < k + 1 ==> Located(next, i, entries[i], base)
  {
    hide Uint32, Located, InTable;
    var number := Uint32(entries[k].offset + base);
    var next := WriteAt(tagtable, 4 + 12 * k + 4, number);
    WriteKeeps(tagtable, 4 + 12 * k + 4, number, 0, 4);
    hide WriteAt;
    forall i | 0 <= i < |entries|
      ensures InTable(next, i, entries[i]) && (i <= k ==> Located(next, i, entries[i], base))
    {
      PatchedEntry(tagtable, k, number, i, entries[i], base);
    }
  }

  lemma PatchCount(tagtable: seq<Byte>, entries: seq<Entry>)
    requires TableHolds(tagtable, entries)
    ensures var next := WriteAt(tagtable, 0, Uint32(|entries|)); TableHolds(next, entries) && Piece(next, 0, 4) == Uint32(|entries|)
  {
    hide Uint32;
    forall i | 0 <= i < |entries|
      ensures InTable(WriteAt(tagtable, 0, Uint32(|entries|)), i, entries[i])
    {
      assert InTable(tagtable, i, entries[i]);
      WriteKeeps(tagtable, 0, Uint32(|entries|), 4 + 12 * i, 4 + 12 * i + 4);
      WriteKeeps(tagtable, 0, Uint32(|entries|), 4 + 12 * i + 8, 4 + 12 * i + 12);
    }
  }

  ghost predicate AllLocated(table: seq<Byte>, entries: seq<Entry>, base: nat) {
    forall i :: 0 <= i < |entries| ==> Located(table, i, entries[i], base)
  }

  method FillOffsets(tagtable: seq<Byte>, offsets: seq<nat>, headerSize: nat, ghost entries: seq<Entry>) returns (table: seq<Byte>)
    requires TableHolds(tagtable, entries) && |offsets| == |entries| && forall i :: 0 <= i < |offsets| ==> offsets[i] == entries[i].offset
    ensures TableHolds(table, entries) && |table| == |tagtable| && Piece(table, 0, 4) == Uint32(|entries|)
    ensures AllLocated(table, entries, headerSize + |tagtable|)
  {
    hide TableHolds, Uint32, Located;
    PatchCount(tagtable, entries);
    TableSize(tagtable, entries);
    table := WriteAt(tagtable, 0, Uint32(|offsets|));
    for i := 0 to |offsets|
      invariant TableHolds(table, entries) && |table| == |tagtable| && Piece(table, 0, 4) == Uint32(|entries|)
      invariant forall j :: 0 <= j < i ==> Located(table, j, entries[j], headerSize + |tagtable|)
    {
      PatchOffset(table, entries, i, headerSize + |tagtable|);
      TableSize(table, entries);
      table := WriteAt(table, 4 + 12 * i + 4, Uint32(offsets[i] + headerSize + |table|));
    }
  }

  lemma TableSize(tagtable: seq<Byte>, entries: seq<Entry>)
    requires TableHolds(tagtable, entries)
    ensures |tagtable| == 4 + 12 * |entries|
  {
  }

  // ---------------------------------------------------------------- the finished profile

  /** What a reader may rely on: the total size, and every entry of the table found at its place. */
  ghost predicate Readable(profile: seq<Byte>, tags: seq<Tag>) {
    && |profile| >= 132 + 12 * |tags| && NumberAt(profile, 0) == |profile| && TagCount(profile) == |tags|
    && forall i :: 0 <= i < |tags| ==>
         && TagOffset(profile, i) % 4 == 0 && TagOffset(profile, i) >= 132 + 12 * |tags|
         && TagOffset(profile, i) + TagSize(profile, i) <= |profile| && ReadTag(profile, i) == tags[i]
  }

  /** The tag table lists these names, twelve bytes apart, each in the order of its characters. */
  ghost predicate Lists(profile: seq<Byte>, names: seq<string>) {
    |profile| >= 132 + 12 * |names| &&
    forall k, i: nat :: 0 <= k < |names| && i < 4 ==> |names[k]| == 4 && profile[132 + 12 * k + i] == names[k][i] as int
  }

  lemma ReadableLists(profile: seq<Byte>, c: Contents)
    requires Readable(profile, Expected(c))
    ensures Lists(profile, Names(c))
  {
    hide Expected, Names, TagOffset, TagSize, NumberAt;
    ExpectedNames(c);
    forall k, i: nat | 0 <= k < |Names(c)| && i < 4
      ensures |Names(c)[k]| == 4 && profile[132 + 12 * k + i] == Names(c)[k][i] as int
    {
      assert Named(Expected(c)[k], Names(c)[k]) && ReadTag(profile, k) == Expected(c)[k];
      assert ReadTag(profile, k).signature[i] == profile[132 + 12 * k + i];
    }
  }

  /** The body of a cicp tag: its name, four zeros, and the four codes. It is the fifth tag. */
  ghost predicate HoldsCicp(profile: seq<Byte>, primaries: Byte, transfer: Byte) {
    && |profile| >= 192 && TagOffset(profile, 4) + 12 <= |profile| && TagSize(profile, 4) == 12
    && var at := TagOffset(profile, 4);
       && profile[at] == 'c' as int && profile[at + 1] == 'i' as int && profile[at + 2] == 'c' as int && profile[at + 3] == 'p' as int
       && profile[at + 4] == profile[at + 5] == profile[at + 6] == profile[at + 7] == 0
       && profile[at + 8] == primaries && profile[at + 9] == transfer && profile[at + 10] == 0 && profile[at + 11] == 1
  }

  lemma CicpIsFifth(c: Contents)
    requires HasCicp(c)
    ensures |Expected(c)| > 4 && Expected(c)[4] == Tag(Signature("cicp"), CicpBody(c)) && |CicpBody(c)| == 12
  {
    assert |CicpBody(c)| == 12;
    assert Padded(CicpBody(c)) == CicpBody(c);
    hide Padded, CicpBody, HasCicp, Last, Signature;
  }

  lemma ReadableCicp(profile: seq<Byte>, c: Contents)
    requires Readable(profile, Expected(c)) && HasCicp(c)
    ensures HoldsCicp(profile, PrimariesCode(c.primaries, c.white), c.transfer.code)
  {
    hide Expected, TagOffset, TagSize, NumberAt, PrimariesCode;
    CicpIsFifth(c);
    var body := CicpBody(c);
    assert ReadTag(profile, 4) == Tag(Signature("cicp"), body);
    assert Piece(profile, TagOffset(profile, 4), TagSize(profile, 4)) == body;
    assert TagSize(profile, 4) == |body| == 12;
    assert forall i :: 0 <= i < 12 ==> profile[TagOffset(profile, 4) + i] == body[i];
  }

  /** A number at the front of the profile or of the tag table, its bytes in order. */
  ghost predicate HoldsNumber(profile: seq<Byte>, pos: nat, n: nat) {
    && pos + 4 <= |profile|
    && profile[pos] as int * 0x100_0000 + profile[pos + 1] as int * 0x1_0000 + profile[pos + 2] as int * 0x100 + profile[pos + 3] as int == n
  }

  lemma ReadableNumbers(profile: seq<Byte>, tags: seq<Tag>)
    requires Readable(profile, tags)
    ensures HoldsNumber(profile, 0, |profile|) && HoldsNumber(profile, 128, |tags|)
  {
    assert NumberAt(profile, 0) == |profile| && NumberAt(profile, 128) == |tags|;
    hide Readable;
  }

  /** The bodies tile the rest of the profile in order; only the green and blue curves share the one before. */
  ghost predicate TilesBody(profile: seq<Byte>, n: nat)
    requires |profile| >= 132 + 12 * n
  {
    && (n > 0 ==> TagOffset(profile, 0) == 132 + 12 * n && TagOffset(profile, n - 1) + TagSize(profile, n - 1) == |profile|)
    && forall i :: 0 < i < n ==>
         TagOffset(profile, i) == TagOffset(profile, i - 1) + TagSize(profile, i - 1)
         || (SharesCurve(Piece(profile, 132 + 12 * i, 4))
             && TagOffset(profile, i) == TagOffset(profile, i - 1) && TagSize(profile, i) == TagSize(profile, i - 1))
  }

  lemma PieceOf(profile: seq<Byte>, before: seq<Byte>, middle: seq<Byte>, after: seq<Byte>, pos: nat, n: nat)
    requires profile == before + middle + after && pos + n <= |middle|
    ensures |before| + pos + n <= |profile| && Piece(profile, |before| + pos, n) == Piece(middle, pos, n)
  {
  }

  lemma EntryReads(header: seq<Byte>, table: seq<Byte>, tags: seq<Byte>, i: nat, e: Entry)
    requires |header| == HEADER_SIZE && |table| % 4 == 0 && Located(table, i, e, |header| + |table|) && InTags(tags, e)
    requires |header| + |table| + |tags| < 0x1_0000_0000
    ensures var p := header + table + tags;
            && 132 + 12 * i + 12 <= |p| && TagOffset(p, i) == e.offset + |header| + |table| && TagSize(p, i) == |e.body|
            && TagOffset(p, i) % 4 == 0 && TagOffset(p, i) + TagSize(p, i) <= |p|
            && ReadTag(p, i) == Tag(e.signature, e.body) && Piece(p, 132 + 12 * i, 4) == e.signature
  {
    hide Uint32, ReadUint32;
    var p := header + table + tags;
    PieceOf(p, header, table, tags, 4 + 12 * i, 4);
    PieceOf(p, header, table, tags, 4 + 12 * i + 4, 4);
    PieceOf(p, header, table, tags, 4 + 12 * i + 8, 4);
    Uint32RoundTrip(e.offset + |header| + |table|);
    Uint32RoundTrip(|e.body|);
    assert p == header + table + tags + [];
    PieceOf(p, header + table, tags, [], e.offset, |e.body|);
  }

  /** The tags of a list of entries. */
  ghost function TagsOf(entries: seq<Entry>): (t: seq<Tag>)
    ensures |t| == |entries|
  {
    seq(|entries|, i requires 0 <= i < |entries| => Tag(entries[i].signature, entries[i].body))
  }

  lemma TagsOfMore(entries: seq<Entry>, e: Entry)
    ensures TagsOf(entries + [e]) == TagsOf(entries) + [Tag(e.signature, e.body)]
  {
  }

  /** The three vectors of a finished profile. */
  ghost predicate Finished(header: seq<Byte>, table: seq<Byte>, tags: seq<Byte>, entries: seq<Entry>) {
    && |header| == HEADER_SIZE && TableHolds(table, entries) && TagsHold(tags, entries)
    && Piece(table, 0, 4) == Uint32(|entries|) && |header| + |table| + |tags| < 0x1_0000_0000
    && AllLocated(table, entries, |header| + |table|)
    && Piece(header, 0, 4) == Uint32(|header| + |table| + |tags|)
  }

  lemma FinishedSizes(header: seq<Byte>, table: seq<Byte>, tags: seq<Byte>, entries: seq<Entry>)
    requires Finished(header, table, tags, entries)
    ensures |header| == HEADER_SIZE && |header| == 128 && |table| == 4 + 12 * |entries| && |table| % 4 == 0
    ensures |header| + |table| + |tags| < 0x1_0000_0000
  {
    hide AllLocated, TagsHold, TableHolds;
    TableSize(table, entries);
    MultipleOfFour(|entries|);
  }

  lemma MultipleOfFour(n: nat)
    ensures (4 + 12 * n) % 4 == 0
  {
    assert 4 + 12 * n == 4 * (1 + 3 * n);
  }

  lemma BothAt(table: seq<Byte>, tags: seq<Byte>, entries: seq<Entry>, base: nat, i: nat)
    requires AllLocated(table, entries, base) && TagsHold(tags, entries) && i < |entries|
    ensures Located(table, i, entries[i], base) && InTags(tags, entries[i])
  {
    hide Located, InTags;
  }

  lemma FinishedLocated(header: seq<Byte>, table: seq<Byte>, tags: seq<Byte>, entries: seq<Entry>)
    requires Finished(header, table, tags, entries)
    ensures AllLocated(table, entries, |header| + |table|) && TagsHold(tags, entries)
  {
  }

  lemma FinishedEntry(header: seq<Byte>, table: seq<Byte>, tags: seq<Byte>, entries: seq<Entry>, i: nat)
    requires Finished(header, table, tags, entries) && i < |entries|
    ensures var p, e := header + table + tags, entries[i];
            && |p| >= 132 + 12 * |entries|
            && TagOffset(p, i) == e.offset + 132 + 12 * |entries| && TagSize(p, i) == |e.body|
            && TagOffset(p, i) % 4 == 0 && TagOffset(p, i) + TagSize(p, i) <= |p|
            && ReadTag(p, i) == Tag(e.signature, e.body) && Piece(p, 132 + 12 * i, 4) == e.signature
  {
    FinishedLocated(header, table, tags, entries);
    hide *;
    FinishedSizes(header, table, tags, entries);
    BothAt(table, tags, entries, |header| + |table|, i);
    EntryReads(header, table, tags, i, entries[i]);
  }

  lemma FinishedIsReadable(header: seq<Byte>, table: seq<Byte>, tags: seq<Byte>, entries: seq<Entry>)
    requires Finished(header, table, tags, entries)
    ensures Readable(header + table + tags, TagsOf(entries))
  {
    hide Uint32, ReadUint32, AllLocated, TagsHold, TableHolds, ReadTag, TagOffset, TagSize, Piece;
    TableSize(table, entries);
    var p := header + table + tags;
    assert p == [] + header + (table + tags);
    PieceOf(p, [], header, table + tags, 0, 4);
    PieceOf(p, header, table, tags, 0, 4);
    Uint32RoundTrip(|header| + |table| + |tags|);
    Uint32RoundTrip(|entries|);
    forall i | 0 <= i < |entries|
      ensures TagOffset(p, i) % 4 == 0 && TagOffset(p, i) >= 132 + 12 * |entries|
      ensures TagOffset(p, i) + TagSize(p, i) <= |p| && ReadTag(p, i) == TagsOf(entries)[i]
    {
      FinishedEntry(header, table, tags, entries, i);
    }
  }

  lemma FinishedTiles(header: seq<Byte>, table: seq<Byte>, tags: seq<Byte>, entries: seq<Entry>)
    requires Finished(header, table, tags, entries) && Tiled(entries)
    requires entries != [] ==> entries[|entries| - 1].offset + |entries[|entries| - 1].body| == |tags|
    ensures |header + table + tags| >= 132 + 12 * |entries| && TilesBody(header + table + tags, |entries|)
  {
    hide Finished, Uint32, ReadUint32, ReadTag, TagOffset, TagSize, Piece, SharesCurve;
    FinishedSizes(header, table, tags, entries);
    var p := header + table + tags;
    if entries != [] {
      FinishedEntry(header, table, tags, entries, 0);
      FinishedEntry(header, table, tags, entries, |entries| - 1);
    }
    forall i | 0 < i < |entries|
      ensures TagOffset(p, i) == TagOffset(p, i - 1) + TagSize(p, i - 1)
        || (SharesCurve(Piece(p, 132 + 12 * i, 4)) && TagOffset(p, i) == TagOffset(p, i - 1) && TagSize(p, i) == TagSize(p, i - 1))
    {
      FinishedEntry(header, table, tags, entries, i - 1);
      FinishedEntry(header, table, tags, entries, i);
    }
  }

  /** Header, table and bodies put together; the checksum is stored inside the header. */
  method Assemble(w: ProfileWriter, header0: seq<Byte>, checksum: seq<Byte>) returns (icc: seq<Byte>)
    requires w.Valid() && |header0| == HEADER_SIZE && |checksum| == 16
    ensures |icc| == HEADER_SIZE + |w.tagtable| + |w.tags|
    ensures |icc| < 0x1_0000_0000 ==> Readable(icc, TagsOf(w.entries)) && TilesBody(icc, |w.entries|)
  {
    hide Uint32, TableHolds, TagsHold, AllLocated, Readable, TilesBody, Tiled, TagsOf;
    TableSize(w.tagtable, w.entries);
    var table := FillOffsets(w.tagtable, w.offsets, |header0|, w.entries);
    var header := WriteAt(header0, 0, Uint32(|header0| + |table| + |w.tags|));
    icc := header + table + w.tags;
    WriteKeeps(header, 84, checksum, 0, 4);
    ghost var finished := WriteAt(header, 84, checksum);
    assert WriteAt(icc, 84, checksum) == finished + table + w.tags by {
      WriteInFront(header, table + w.tags, checksum);
      assert icc == header + (table + w.tags);
      assert finished + (table + w.tags) == finished + table + w.tags;
    }
    icc := WriteAt(icc, 84, checksum);
    if |icc| < 0x1_0000_0000 {
      FinishedIsReadable(finished, table, w.tags, w.entries);
      FinishedTiles(finished, table, w.tags, w.entries);
    }
  }

  lemma WriteInFront(header: seq<Byte>, rest: seq<Byte>, checksum: seq<Byte>)
    requires |header| == HEADER_SIZE && |checksum| == 16
    ensures WriteAt(header + rest, 84, checksum) == WriteAt(header, 84, checksum) + rest
  {
  }

  datatype Result = NoProfile | Failure | Profile(icc: seq<Byte>)

  predicate Supported(c: Contents) {
    !c.transfer.UnknownTransfer? && (c.colorSpace.RGB? || c.colorSpace.Gray? || (c.colorSpace.XYB? && c.perceptual))
  }

  method AddLastTags(c: Contents, w: ProfileWriter)
    requires w.Valid() && (c.colorSpace.RGB? || c.colorSpace.Gray? || c.colorSpace.XYB?)
    modifies w
    ensures w.Valid() && TagsOf(w.entries) == TagsOf(old(w.entries)) + Last(c)
  {
    hide Signature, TagsOf, w.Valid, Padded;
    ghost var start := TagsOf(w.entries);
    if c.colorSpace.XYB? || c.toneMapped {
      TagsOfMore(w.entries, Entry(Signature("A2B0"), |w.tags|, Padded(c.toLab)));
      w.AddTag("A2B0", c.toLab);
      TagsOfMore(w.entries, Entry(Signature("B2A0"), |w.tags|, Padded(c.fromLab)));
      w.AddTag("B2A0", c.fromLab);
    } else if c.colorSpace.Gray? {
      TagsOfMore(w.entries, Entry(Signature("kTRC"), |w.tags|, Padded(c.curve)));
      w.AddTag("kTRC", c.curve);
    } else {
      ghost var offset := |w.tags|;
      TagsOfMore(w.entries, Entry(Signature("rTRC"), offset, Padded(c.curve)));
      w.AddTag("rTRC", c.curve);
      TagsOfMore(w.entries, Entry(Signature("gTRC"), offset, Padded(c.curve)));
      w.AddSharedTag("gTRC");
      TagsOfMore(w.entries, Entry(Signature("bTRC"), offset, Padded(c.curve)));
      w.AddSharedTag("bTRC");
    }
  }

  /** One more tag, in terms of what a reader sees. */
  method Add(w: ProfileWriter, tag: string, body: seq<Byte>)
    requires w.Valid() && |tag| == 4
    modifies w
    ensures w.Valid() && TagsOf(w.entries) == TagsOf(old(w.entries)) + [Tag(Signature(tag), Padded(body))]
  {
    hide Signature, TagsOf, w.Valid, Padded;
    TagsOfMore(w.entries, Entry(Signature(tag), |w.tags|, Padded(body)));
    w.AddTag(tag, body);
  }

  method AddFirstTags(c: Contents, w: ProfileWriter)
    requires w.Valid() && w.entries == []
    modifies w
    ensures w.Valid() && TagsOf(w.entries) == First(c)
  {
    hide Signature, w.Valid, Padded;
    Add(w, "desc", c.description);
    Add(w, "cprt", c.copyright);
    Add(w, "wtpt", c.whitePoint);
    if !c.colorSpace.Gray? {
      Add(w, "chad", c.adaptation);
    }
  }

  /** The cicp tag is left out when no code describes the encoding. */
  method MaybeCreateICCCICPTag(c: Contents, w: ProfileWriter)
    requires w.Valid()
    modifies w
    ensures w.Valid() && TagsOf(w.entries) == TagsOf(old(w.entries)) + (if HasCicp(c) then [Tag(Signature("cicp"), Padded(CicpBody(c)))] else [])
  {
    hide Signature, w.Valid, Padded, TagsOf;
    if !c.colorSpace.RGB? {
      return;
    }
    var primaries: Byte := 0;
    if c.primaries.P3? {
      if c.white.D65? {
        primaries := 12;
      } else if c.white.DCI? {
        primaries := 11;
      } else {
        return;
      }
    } else if !c.primaries.CustomPrimaries? && c.white.D65? {
      primaries := if c.primaries.SRGB? then 1 else 9;
    } else {
      return;
    }
    if !c.transfer.Coded? {
      return;
    }
    Add(w, "cicp", Signature("cicp") + Uint32(0) + [primaries, c.transfer.code, 0, 1]);
  }

  method AddColorants(c: Contents, w: ProfileWriter)
    requires w.Valid()
    modifies w
    ensures w.Valid() && TagsOf(w.entries) == TagsOf(old(w.entries)) + Colorants(c)
  {
    hide Signature, w.Valid, Padded, TagsOf, CicpBody;
    if c.colorSpace.RGB? {
      MaybeCreateICCCICPTag(c, w);
      Add(w, "rXYZ", c.red);
      Add(w, "gXYZ", c.green);
      Add(w, "bXYZ", c.blue);
    }
  }

  /** The profile, unless the colour encoding has none. Reading its tag table gives back every tag. */
  method MaybeCreateProfile(c: Contents) returns (r: Result)
    requires |c.header| == HEADER_SIZE && |c.checksum| == 16
    ensures r.Profile? <==> Supported(c)
    ensures r.NoProfile? <==> c.colorSpace.Unknown? || c.transfer.UnknownTransfer?
    ensures r.Profile? && |r.icc| < 0x1_0000_0000 ==> Readable(r.icc, Expected(c)) && TilesBody(r.icc, |Expected(c)|)
    ensures r.Profile? && |r.icc| < 0x1_0000_0000 ==>
      && HoldsNumber(r.icc, 0, |r.icc|) && HoldsNumber(r.icc, 128, |Names(c)|) && Lists(r.icc, Names(c))
      && (HasCicp(c) ==> HoldsCicp(r.icc, PrimariesCode(c.primaries, c.white), c.transfer.code))
  {
    hide First, Colorants, Last, FirstNames, ColorantNames, LastNames, TagsOf, Readable, TilesBody, HoldsNumber, Lists, HasCicp, HoldsCicp;
    if c.colorSpace.Unknown? || c.transfer.UnknownTransfer? {
      return NoProfile;
    }
    if c.colorSpace.Other? {
      return Failure;
    }
    if c.colorSpace.XYB? && !c.perceptual {
      return Failure;
    }
    var w := new ProfileWriter();
    AddFirstTags(c, w);
    AddColorants(c, w);
    AddLastTags(c, w);
    var icc := Assemble(w, c.header, c.checksum);
    if |icc| < 0x1_0000_0000 {
      ExpectedNames(c);
      ReadableNumbers(icc, Expected(c));
      ReadableLists(icc, c);
      if HasCicp(c) {
        ReadableCicp(icc, c);
      }
    }
    return Profile(icc);
  }
}
