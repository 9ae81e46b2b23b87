/** The layout of a document around its encoded objects: header, objects, offset table, trailer. */
module PlistLayout {
  import opened PlistBytes
  import opened PlistFormat
  import opened PlistReader

  function EncodeTrailer(intSize: Byte, refSize: Byte, num: nat, tableOffset: nat): Bytes {
    [0, 0, 0, 0, 0, 0] + [intSize] + [refSize] + BigEndian(num, 8) + BigEndian(0, 8) + BigEndian(tableOffset, 8)
  }

  /** Header and objects. */
  function Objects(cs: seq<Bytes>): Bytes {
    HEADER + Concat(cs)
  }

  /** One more object: where it goes and what stands there afterwards. */
  lemma ObjectsNext(cs: seq<Bytes>, i: nat)
    requires i < |cs|
    ensures Objects(cs[..i + 1]) == Objects(cs[..i]) + cs[i]
    ensures |Objects(cs[..i])| == OffsetOf(cs, i)
  {
    StartNext(cs, i);
  }

  /** The offset of object i. */
  function OffsetOf(cs: seq<Bytes>, i: nat): nat
    requires i <= |cs|
  {
    8 + Start(cs, i)
  }

  function Offsets(cs: seq<Bytes>): seq<nat> {
    seq(|cs|, i requires 0 <= i < |cs| => OffsetOf(cs, i))
  }

  /** Few enough objects for four-byte references, and a length a signed word can hold. */
  predicate Storable(cs: seq<Bytes>) {
    |cs| < 0x1_0000_0000 && |Objects(cs)| <= LONG_MAX
  }

  function TrailerFor(cs: seq<Bytes>): Trailer
    requires Storable(cs)
  {
    WidthsAreBytes(cs);
    Trailer(ByteLength(|Objects(cs)|), ByteLength(|cs|), |cs|, 0, |Objects(cs)|)
  }

  lemma WidthsAreBytes(cs: seq<Bytes>)
    requires Storable(cs)
    ensures ByteLength(|cs|) <= 4 && ByteLength(|Objects(cs)|) <= 8
  {
    Pow256Values();
    ByteLengthAtMost(|cs|, 4);
    ByteLengthAtMost(|Objects(cs)|, 8);
  }

  function TableFor(cs: seq<Bytes>): Bytes {
    Concat(FieldsOf(Offsets(cs), ByteLength(|Objects(cs)|)))
  }

  function Document(cs: seq<Bytes>): Bytes
    requires Storable(cs)
  {
    var tr := TrailerFor(cs);
    Objects(cs) + TableFor(cs) + EncodeTrailer(tr.offsetIntSize, tr.objectRefSize, tr.numObjects, tr.tableOffset)
  }

  ghost function Laid(cs: seq<Bytes>): Doc
    requires Storable(cs)
  {
    Doc(Document(cs), TrailerFor(cs))
  }

  lemma TableLength(cs: seq<Bytes>, w: nat)
    requires |cs| < 0x1_0000_0000 && w <= 8
    ensures |Concat(FieldsOf(Offsets(cs), w))| <= 8 * |cs|
  {
    FieldsLength(Offsets(cs), w);
    FieldsAtMost(|cs|, w);
  }

  lemma {:induction false} FieldsAtMost(n: nat, size: nat)
    requires size <= 8
    ensures Fields(n, size) <= 8 * n
  {
    if n > 0 {
      FieldsAtMost(n - 1, size);
    }
  }

  lemma TrailerLength(intSize: Byte, refSize: Byte, num: nat, tableOffset: nat)
    ensures |EncodeTrailer(intSize, refSize, num, tableOffset)| == 32
  {
  }

  /** A document that can be stored fits in the address space. */
  lemma StorableFits(cs: seq<Bytes>)
    requires Storable(cs)
    ensures |Document(cs)| < SPAN64
  {
    WidthsAreBytes(cs);
    var tr := TrailerFor(cs);
    TableLength(cs, tr.offsetIntSize);
    TrailerLength(tr.offsetIntSize, tr.objectRefSize, tr.numObjects, tr.tableOffset);
    assert |Document(cs)| == |Objects(cs)| + |TableFor(cs)| + 32;
  }

  /** A document of at least one object, none of them empty. */
  ghost predicate Proper(cs: seq<Bytes>) {
    && Storable(cs) && cs != []
    && forall i :: 0 <= i < |cs| ==> |cs[i]| > 0
  }

  lemma TrailerParts(sizes: Bytes, a: Bytes, b: Bytes, c: Bytes)
    requires |sizes| == |a| == |b| == |c| == 8
    ensures var t := sizes + a + b + c;
            |t| == 32 && t[..8] == sizes && t[8..16] == a && t[16..24] == b && t[24..32] == c
  {
  }

  lemma TrailerReadsBack(intSize: Byte, refSize: Byte, num: nat, end: nat)
    requires num < SPAN64 && end < SPAN64
    ensures var t := EncodeTrailer(intSize, refSize, num, end);
            |t| == 32 && ParseTrailer(t) == Trailer(intSize, refSize, num, 0, end)
            && forall i :: 0 <= i < 6 ==> t[i] == 0
  {
    var sizes: Bytes := [0, 0, 0, 0, 0, 0, intSize, refSize];
    assert sizes == [0, 0, 0, 0, 0, 0] + [intSize] + [refSize];
    TrailerParts(sizes, BigEndian(num, 8), BigEndian(0, 8), BigEndian(end, 8));
    var t := EncodeTrailer(intSize, refSize, num, end);
    assert forall i :: 0 <= i < 8 ==> t[i] == sizes[i];
    assert Pow256(8) == SPAN64 by {
      Pow256Values();
    }
    BigEndianRoundTrip(num, 8);
    BigEndianRoundTrip(0, 8);
    BigEndianRoundTrip(end, 8);
  }

  /** Objects start in order, inside the object area. */
  lemma OffsetInside(cs: seq<Bytes>, i: nat)
    requires i < |cs| && |cs[i]| > 0
    ensures 8 <= OffsetOf(cs, i) < OffsetOf(cs, i) + |cs[i]| <= |Objects(cs)|
  {
    ChunkAt(cs, i);
  }

  lemma EndsOfDocument(a: Bytes, b: Bytes, t: Bytes)
    requires 8 <= |a| && |t| == 32
    ensures var s := a + b + t;
      s[|s| - 32..] == t && s[..8] == a[..8] && forall i :: |s| - 32 <= i < |s| ==> s[i] == t[i - (|s| - 32)]
  {
  }

  lemma LaidFrame(cs: seq<Bytes>)
    requires Proper(cs)
    ensures |Document(cs)| >= 32 + 8 + 1 && DocOf(Document(cs)) == Laid(cs) && Framed(Document(cs))
  {
    var tr := TrailerFor(cs);
    var t := EncodeTrailer(tr.offsetIntSize, tr.objectRefSize, tr.numObjects, tr.tableOffset);
    TrailerReadsBack(tr.offsetIntSize, tr.objectRefSize, tr.numObjects, tr.tableOffset);
    OffsetInside(cs, 0);
    EndsOfDocument(Objects(cs), TableFor(cs), t);
    assert Objects(cs)[..8] == HEADER;
  }

  lemma LaidTiles(cs: seq<Bytes>)
    requires Proper(cs)
    ensures Tiled(Laid(cs)) && DocOf(Document(cs)) == Laid(cs) && Framed(Document(cs))
  {
    LaidFrame(cs);
    StorableFits(cs);
    var tr := TrailerFor(cs);
    FieldsLength(Offsets(cs), tr.offsetIntSize);
    TrailerLength(tr.offsetIntSize, tr.objectRefSize, tr.numObjects, tr.tableOffset);
    OffsetInside(cs, 0);
    ByteLengthBounds(|cs|);
    ByteLengthBounds(|Objects(cs)|);
  }

  /** The bytes of entry i of the offset table. */
  lemma TableSlice(cs: seq<Bytes>, i: nat)
    requires Storable(cs) && i < |cs|
    ensures var d := Laid(cs); var at, w := EntryAt(d.tr, i), d.tr.offsetIntSize;
            at + w <= |d.data| && d.data[at..at + w] == BigEndian(OffsetOf(cs, i), w)
  {
    var d := Laid(cs);
    var w := d.tr.offsetIntSize;
    var t := EncodeTrailer(w, d.tr.objectRefSize, d.tr.numObjects, d.tr.tableOffset);
    FieldInside(Objects(cs), Offsets(cs), w, t, i);
  }

  lemma EntryReads(d: Doc, i: nat, v: nat)
    requires Tiled(d) && i < d.tr.numObjects && v < SPAN64 && v < Pow256(d.tr.offsetIntSize)
    requires EntryAt(d.tr, i) + d.tr.offsetIntSize <= |d.data|
    requires d.data[EntryAt(d.tr, i)..EntryAt(d.tr, i) + d.tr.offsetIntSize] == BigEndian(v, d.tr.offsetIntSize)
    ensures TableEntry(d, i) == v
  {
    ReadsBack64(v, d.tr.offsetIntSize);
  }

  /** Entry i of the offset table is the offset of object i. */
  lemma LaidEntry(cs: seq<Bytes>, i: nat)
    requires Proper(cs) && i < |cs|
    ensures Tiled(Laid(cs)) && TableEntry(Laid(cs), i) == OffsetOf(cs, i) < Laid(cs).tr.tableOffset
  {
    LaidTiles(cs);
    TableSlice(cs, i);
    OffsetFits(cs, i);
    EntryReads(Laid(cs), i, OffsetOf(cs, i));
  }

  lemma OffsetFits(cs: seq<Bytes>, i: nat)
    requires Proper(cs) && i < |cs|
    ensures OffsetOf(cs, i) < |Objects(cs)| < SPAN64 && OffsetOf(cs, i) < Pow256(ByteLength(|Objects(cs)|))
  {
    OffsetInside(cs, i);
    ByteLengthBounds(|Objects(cs)|);
  }

  /** The trailer check accepts every document so laid out, and finds the first object on top. */
  lemma LaidIsAcceptable(cs: seq<Bytes>)
    requires Proper(cs)
    ensures Acceptable(Document(cs)) && DocOf(Document(cs)) == Laid(cs)
    ensures TableEntry(Laid(cs), 0) == OffsetOf(cs, 0) == 8
  {
    LaidTiles(cs);
    var d := Laid(cs);
    forall i | 0 <= i < d.tr.numObjects
      ensures TableEntry(d, i) < d.tr.tableOffset
    {
      LaidEntry(cs, i);
    }
    LaidEntry(cs, 0);
    ByteLengthBounds(|cs|);
    ByteLengthBounds(d.tr.tableOffset);
  }

  /** Object i stands at its offset. */
  lemma LaidObject(cs: seq<Bytes>, i: nat)
    requires Storable(cs) && i < |cs|
    ensures OffsetOf(cs, i) + |cs[i]| <= Laid(cs).tr.tableOffset <= |Laid(cs).data|
    ensures Laid(cs).data[OffsetOf(cs, i)..OffsetOf(cs, i) + |cs[i]|] == cs[i]
  {
    ChunkAt(cs, i);
    var tr := TrailerFor(cs);
    var t := EncodeTrailer(tr.offsetIntSize, tr.objectRefSize, tr.numObjects, tr.tableOffset);
    Reassociate(HEADER, Concat(cs), TableFor(cs), t);
    SliceOfMiddle(HEADER, Concat(cs), TableFor(cs) + t, Start(cs, i), Start(cs, i) + |cs[i]|);
  }

  lemma Reassociate(a: Bytes, b: Bytes, c: Bytes, d: Bytes)
    ensures (a + b) + c + d == a + b + (c + d)
  {
  }
}
