/** The imperative writer: the write buffer, object by object output, offset table and trailer. */
module PlistStream {
  import opened PlistBytes
  import opened Bits
  import opened PlistGraph
  import opened PlistReader
  import opened PlistHeap
  import opened PlistWriter
  import opened PlistLayout
  import opened PlistRoundTrip
  import opened PlistExact

  const BUFFER_SIZE: nat := 8192 - 32

  class WriteBuffer {
    var stream: Bytes
    var written: nat
    var used: nat
    var buffer: array<Byte>

    constructor ()
      ensures Valid() && Contents() == [] && fresh(buffer)
    {
      stream, written, used := [], 0, 0;
      buffer := new Byte[BUFFER_SIZE];
    }

    ghost predicate Valid()
      reads this, buffer
    {
      buffer.Length == BUFFER_SIZE && used < BUFFER_SIZE && written == |stream|
    }

    /** Everything written so far, flushed or not. */
    ghost function Contents(): Bytes
      reads this, buffer
      requires used <= buffer.Length
    {
      stream + buffer[..used]
    }

    /** `written + used` is the length of everything written. */
    method Position() returns (n: nat)
      requires Valid()
      ensures n == |Contents()|
    {
      n := written + used;
    }

    method Append(bytes: Bytes)
      requires written == |stream|
      modifies this`stream, this`written
      ensures stream == old(stream) + bytes && written == |stream|
    {
      if |bytes| == 0 {
        return;
      }
      stream := stream + bytes;
      written := written + |bytes|;
    }

    method CopyIn(at: nat, bytes: Bytes)
      requires at + |bytes| <= buffer.Length
      modifies buffer
      ensures buffer[..at] == old(buffer[..at]) && buffer[at..at + |bytes|] == bytes
    {
      forall i | 0 <= i < |bytes| {
        buffer[at + i] := bytes[i];
      }
    }

    /** Whatever the size of a write, it ends up after everything written before. */
    method Write(bytes: Bytes)
      requires Valid()
      modifies this`stream, this`written, this`used, buffer
      ensures Valid() && Contents() == old(Contents()) + bytes
    {
      if |bytes| == 0 {
        return;
      }
      if BUFFER_SIZE <= |bytes| {
        WriteThrough(bytes);
        return;
      }
      var copyLen := if |bytes| <= BUFFER_SIZE - used then |bytes| else BUFFER_SIZE - used;
      assert bytes == bytes[..copyLen] + bytes[copyLen..];
      CopyChunk(bytes[..copyLen]);
      if used == BUFFER_SIZE {
        Spill(bytes[copyLen..]);
      }
    }

    /** What is buffered and the bytes go straight to the stream. */
    method WriteThrough(bytes: Bytes)
      requires Valid()
      modifies this`stream, this`written, this`used
      ensures Valid() && Contents() == old(Contents()) + bytes
    {
      Append(buffer[..used]);
      used := 0;
      Append(bytes);
    }

    /** Puts bytes in the buffer, which may fill it up. */
    method CopyChunk(bytes: Bytes)
      requires Valid() && used + |bytes| <= BUFFER_SIZE
      modifies this`used, buffer
      ensures used == old(used) + |bytes| && Contents() == old(Contents()) + bytes
    {
      CopyIn(used, bytes);
      used := used + |bytes|;
      assert buffer[..used] == old(buffer[..used]) + bytes;
    }

    /** Sends a full buffer to the stream and starts a new one with the bytes left. */
    method Spill(bytes: Bytes)
      requires buffer.Length == used == BUFFER_SIZE && written == |stream| && |bytes| < BUFFER_SIZE
      modifies this`stream, this`written, this`used, buffer
      ensures Valid() && Contents() == old(Contents()) + bytes
    {
      Append(buffer[..]);
      assert buffer[..] == buffer[..used];
      CopyIn(0, bytes);
      used := |bytes|;
      assert buffer[..used] == bytes;
    }

    method Flush()
      requires Valid()
      modifies this`stream, this`written, this`used
      ensures Valid() && used == 0 && stream == old(Contents())
    {
      Append(buffer[..used]);
      used := 0;
    }
  }

  // ---------- objects ----------

  /** A marker byte and the content after it. */
  method WriteTagged(buf: WriteBuffer, marker: Byte, s: Bytes)
    requires buf.Valid()
    modifies buf`stream, buf`written, buf`used, buf.buffer
    ensures buf.Valid() && buf.Contents() == old(buf.Contents()) + ([marker] + s)
  {
    buf.Write([marker]);
    buf.Write(s);
  }

  method WriteInt(buf: WriteBuffer, v: nat)
    requires buf.Valid()
    modifies buf`stream, buf`written, buf`used, buf.buffer
    ensures buf.Valid() && buf.Contents() == old(buf.Contents()) + EncodeInt(v)
  {
    var e := IntExponent(v);
    WriteTagged(buf, 0x10 + e, BigEndian(v, Pow2(e)));
  }

  method WriteCount(buf: WriteBuffer, marker: int, n: nat)
    requires buf.Valid() && 0 <= marker <= 0xf0
    modifies buf`stream, buf`written, buf`used, buf.buffer
    ensures buf.Valid() && buf.Contents() == old(buf.Contents()) + EncodeCount(marker, n)
  {
    if n < 15 {
      buf.Write([marker + n]);
    } else {
      buf.Write([marker + 15]);
      ghost var c := buf.Contents();
      WriteInt(buf, n);
      assert c + EncodeInt(n) == old(buf.Contents()) + ([marker + 15] + EncodeInt(n));
    }
  }

  /** A marker with a count, and the content. */
  method WriteCounted(buf: WriteBuffer, marker: int, n: nat, s: Bytes)
    requires buf.Valid() && 0 <= marker <= 0xf0
    modifies buf`stream, buf`written, buf`used, buf.buffer
    ensures buf.Valid() && buf.Contents() == old(buf.Contents()) + (EncodeCount(marker, n) + s)
  {
    WriteCount(buf, marker, n);
    buf.Write(s);
  }

  /** Byte-swaps a string's units for output. */
  method SwapOut(u: seq<Unit16>) returns (s: Bytes)
    ensures s == Swapped(u)
  {
    s := [];
    for i := 0 to |u|
      invariant |s| == 2 * i && forall j :: 0 <= j < 2 * i ==> s[j] == Swapped(u)[j]
    {
      s := s + [u[i] / 256, u[i] % 256];
    }
  }

  method WriteAtom(buf: WriteBuffer, a: Atom)
    requires buf.Valid() && ValidAtom(a)
    modifies buf`stream, buf`written, buf`used, buf.buffer
    ensures buf.Valid() && buf.Contents() == old(buf.Contents()) + EncodeAtom(a)
  {
    match a {
      case Str(u) =>
        if IsAscii(u) {
          WriteCounted(buf, 0x50, |u|, Narrow(u));
        } else {
          var s := SwapOut(u);
          WriteCounted(buf, 0x60, |u|, s);
        }
      case Int(v) => WriteInt(buf, v);
      case Int128(hi, lo) => WriteTagged(buf, 0x14, BigEndian(hi, 8) + BigEndian(lo, 8));
      case Real(s) => WriteTagged(buf, if |s| == 4 then 0x22 else 0x23, s);
      case Date(s) => WriteTagged(buf, 0x33, s);
      case Data(s) => WriteCounted(buf, 0x40, |s|, s);
      case Bool(b) => buf.Write(if b then [0x09] else [0x08]);
      case Uid(v) => WriteTagged(buf, 0x80 + Pow2(IntExponent(v)) - 1, BigEndian(v, Pow2(IntExponent(v))));
    }
  }

  /** A row of fields of one width, one write each. */
  method WriteFields(buf: WriteBuffer, vs: seq<nat>, size: nat)
    requires buf.Valid()
    modifies buf`stream, buf`written, buf`used, buf.buffer
    ensures buf.Valid() && buf.Contents() == old(buf.Contents()) + Concat(FieldsOf(vs, size))
  {
    ghost var cs := FieldsOf(vs, size);
    for i := 0 to |vs|
      invariant buf.Valid() && buf.Contents() == old(buf.Contents()) + Concat(cs[..i])
    {
      StartNext(cs, i);
      buf.Write(BigEndian(vs[i], size));
    }
    assert cs[..|vs|] == cs;
  }

  method WriteNode(buf: WriteBuffer, n: Node, table: map<Ref, nat>, size: nat)
    requires buf.Valid() && (n.Leaf? ==> ValidAtom(n.atom)) && RefsIndexed(table, Children(n))
    modifies buf`stream, buf`written, buf`used, buf.buffer
    ensures buf.Valid() && buf.Contents() == old(buf.Contents()) + EncodeNode(n, table, size)
  {
    match n {
      case Leaf(a) => WriteAtom(buf, a);
      case Arr(es) => WriteRow(buf, 0xA0, |es|, Indices(table, es), size);
      case Dic(ks, vs) => WriteRow(buf, 0xD0, |ks|, Indices(table, ks + vs), size);
    }
  }

  method WriteRow(buf: WriteBuffer, marker: int, n: nat, vs: seq<nat>, size: nat)
    requires buf.Valid() && 0 <= marker <= 0xf0
    modifies buf`stream, buf`written, buf`used, buf.buffer
    ensures buf.Valid()
    ensures buf.Contents() == old(buf.Contents()) + (EncodeCount(marker, n) + Concat(FieldsOf(vs, size)))
  {
    WriteCount(buf, marker, n);
    WriteFields(buf, vs, size);
  }

  ghost predicate Encodes(h: Heap, f: Flat, cs: seq<Bytes>, i: nat)
    requires Writable(h, f) && i < |f.list| == |cs|
  {
    cs[i] == EncodeEntry(h, f, i)
  }

  method WriteEntry(buf: WriteBuffer, h: Heap, f: Flat, ghost cs: seq<Bytes>, i: nat, size: nat)
    requires buf.Valid() && Writable(h, f) && i < |f.list| == |cs|
    requires size == ByteLength(|f.list|) && Encodes(h, f, cs, i)
    modifies buf`stream, buf`written, buf`used, buf.buffer
    ensures buf.Valid() && buf.Contents() == old(buf.Contents()) + cs[i]
  {
    EntryWritable(h, f, i);
    WriteNode(buf, h[f.list[i]], f.table, size);
  }

  /** Writes one object behind those before it and says where it starts. */
  method WriteNext(buf: WriteBuffer, h: Heap, f: Flat, ghost cs: seq<Bytes>, i: nat, size: nat) returns (at: nat)
    requires buf.Valid() && Writable(h, f) && i < |f.list| == |cs| && buf.Contents() == Objects(cs[..i])
    requires size == ByteLength(|f.list|) && Encodes(h, f, cs, i)
    modifies buf`stream, buf`written, buf`used, buf.buffer
    ensures buf.Valid() && buf.Contents() == Objects(cs[..i + 1]) && at == OffsetOf(cs, i)
  {
    ObjectsNext(cs, i);
    at := buf.Position();
    WriteEntry(buf, h, f, cs, i, size);
  }

  /** Writes every listed object, recording where each one starts. */
  method WriteEntries(buf: WriteBuffer, h: Heap, f: Flat, ghost cs: seq<Bytes>, size: nat) returns (offsets: seq<nat>)
    requires buf.Valid() && buf.Contents() == HEADER && Writable(h, f) && |cs| == |f.list|
    requires size == ByteLength(|f.list|) && forall i :: 0 <= i < |f.list| ==> Encodes(h, f, cs, i)
    modifies buf`stream, buf`written, buf`used, buf.buffer
    ensures buf.Valid() && buf.Contents() == Objects(cs) && offsets == Offsets(cs)
  {
    offsets := [];
    for i := 0 to |f.list|
      invariant buf.Valid() && buf.Contents() == Objects(cs[..i])
      invariant |offsets| == i && forall j :: 0 <= j < i ==> offsets[j] == OffsetOf(cs, j)
    {
      var at := WriteNext(buf, h, f, cs, i, size);
      offsets := offsets + [at];
    }
    assert cs[..|f.list|] == cs;
  }

  method WriteObjects(buf: WriteBuffer, h: Heap, f: Flat) returns (offsets: seq<nat>)
    requires buf.Valid() && buf.Contents() == HEADER && Writable(h, f)
    modifies buf`stream, buf`written, buf`used, buf.buffer
    ensures buf.Valid() && buf.Contents() == Objects(Entries(h, f)) && offsets == Offsets(Entries(h, f))
  {
    var size := CountBytes(|f.list|);
    offsets := WriteEntries(buf, h, f, Entries(h, f), size);
  }

  /** Writes a flattened property list; the result is the document, with its length. */
  method WriteFlat(h: Heap, f: Flat) returns (r: Option<(Bytes, nat)>)
    requires Writable(h, f)
    ensures r.Some? <==> Storable(Entries(h, f))
    ensures r.Some? ==> r.value.0 == Document(Entries(h, f)) && r.value.1 == |r.value.0|
  {
    ghost var cs := Entries(h, f);
    var buf := new WriteBuffer();
    buf.Write(HEADER);
    var offsets := WriteObjects(buf, h, f);
    var soFar := buf.Position();
    if 0x1_0000_0000 <= |f.list| || LONG_MAX < soFar {
      return None;
    }
    var refSize := CountBytes(|f.list|);
    var intSize := CountBytes(soFar);
    WidthsAreBytes(cs);
    WriteFields(buf, offsets, intSize);
    buf.Write(EncodeTrailer(intSize, refSize, |f.list|, soFar));
    FieldsLength(offsets, intSize);
    FieldsIsProduct(|f.list|, intSize);
    buf.Flush();
    return Some((buf.stream, soFar + |f.list| * intSize + 32));
  }

  /** The document of the property list at root. */
  ghost function DocumentOf(h: Heap, eq: AtomEq, root: Ref): Option<Bytes>
    requires root < |h|
  {
    var f := Flattening(h, eq, root);
    FlatteningOK(h, eq, root);
    if Storable(Entries(h, f)) then Some(Document(Entries(h, f))) else None
  }

  /**
    Such a document is accepted, and its top object is read back, exactly when
    all dictionary keys are scalars, with each scalar as its entry is read back.
  */
  lemma DocumentReadsBack(h: Heap, eq: AtomEq, root: Ref)
    requires root < |h| && DocumentOf(h, eq, root).Some?
    ensures var data := DocumentOf(h, eq, root).value;
      && |data| < SPAN64 && Acceptable(data)
      && TopMeaning(data) == ReadAs(h, AsRead(h, Flattening(h, eq, root)), root)
  {
    var f := Flattening(h, eq, root);
    FlatteningOK(h, eq, root);
    EntriesNotEmpty(h, f);
    StorableFits(Entries(h, f));
    RoundTrip(h, eq, f);
  }

  /** Flattens and writes the property list at root. */
  method WriteToStream(h: Heap, root: Ref, eq: AtomEq) returns (r: Option<(Bytes, nat)>)
    requires root < |h|
    ensures r.Some? <==> DocumentOf(h, eq, root).Some?
    ensures r.Some? ==> DocumentOf(h, eq, root) == Some(r.value.0) && r.value.1 == |r.value.0|
  {
    FlatteningOK(h, eq, root);
    var flattener := new Flattener(h, eq);
    flattener.Flatten(root);
    r := WriteFlat(h, Flat(flattener.objlist, flattener.objtable, flattener.members));
  }

  /**
    Writing a property list and parsing the result: whatever can be stored is
    accepted. It is read back if and only if all dictionary keys are scalars,
    each scalar as its entry is, and, with no wide integer listed, equal.
  */
  method WriteAndParse(h: Heap, root: Ref, eq: AtomEq, option: Mutability)
      returns (stored: bool, accepted: bool, plist: Option<PValue>)
    requires root < |h|
    ensures stored <==> DocumentOf(h, eq, root).Some?
    ensures stored ==> accepted && plist == ReadAs(h, AsRead(h, Flattening(h, eq, root)), root)
    ensures plist.Some? && NoWideListed(h, Flattening(h, eq, root)) ==> SameValue(eq, plist.value, Value(h, root))
  {
    var r := WriteToStream(h, root, eq);
    if r.None? {
      return false, false, None;
    }
    DocumentReadsBack(h, eq, root);
    accepted, plist := TryParse(r.value.0, option);
    if NoWideListed(h, Flattening(h, eq, root)) {
      NarrowIsEqual(h, eq, root);
    }
    stored := true;
  }

  /** A dictionary with an array for a key is stored and accepted, but never read back. */
  lemma ContainerKeyIsRefused(eq: AtomEq)
    ensures var h: Heap := [Arr([]), Dic([0], [0])];
      && DocumentOf(h, eq, 1).Some? && Acceptable(DocumentOf(h, eq, 1).value)
      && TopMeaning(DocumentOf(h, eq, 1).value).None?
  {
    var h: Heap := [Arr([]), Dic([0], [0])];
    FlatteningOK(h, eq, 1);
    FlattenedKey(h, eq);
    KeyIsStorable(h, Flattening(h, eq, 1));
    DocumentReadsBack(h, eq, 1);
    KeyIsNoScalar(h);
  }

  lemma KeyIsNoScalar(h: Heap)
    requires h == [Arr([]), Dic([0], [0])]
    ensures !ScalarKeys(h, 1)
  {
    assert Children(h[1]) == [0, 0] && !KidIsSound(h, 1, 0);
  }

  lemma FlattenedKey(h: Heap, eq: AtomEq)
    requires h == [Arr([]), Dic([0], [0])]
    ensures Flattening(h, eq, 1) == Flat([1, 0, 0], map[1 := 0, 0 := 1], [])
  {
    var f0, f1 := Flat([1], map[1 := 0], []), Flat([1, 0], map[1 := 0, 0 := 1], []);
    assert Appended(h, Flat([], map[], []), 1) == f0 && Children(h[1]) == [0, 0];
    EmptyArray(h, eq, f0, 0);
    EmptyArray(h, eq, f1, 0);
    FoldPair(StepBelow(h, eq, 1), f0, 0, 0);
  }

  lemma EmptyArray(h: Heap, eq: AtomEq, f: Flat, r: Ref)
    requires r < |h| && h[r] == Arr([])
    ensures Flattened(h, eq, f, r) == Appended(h, f, r)
  {
    assert Fold(StepBelow(h, eq, r), Appended(h, f, r), []) == Appended(h, f, r);
  }

  lemma KeyIsStorable(h: Heap, f: Flat)
    requires h == [Arr([]), Dic([0], [0])] && f == Flat([1, 0, 0], map[1 := 0, 0 := 1], []) && Writable(h, f)
    ensures Storable(Entries(h, f))
  {
    var cs := Entries(h, f);
    var w := ByteLength(3);
    assert w <= 2;
    var refs: seq<Ref> := [0] + [0];
    FieldsLength(Indices(f.table, refs), w);
    FieldsIsProduct(2, w);
    FieldsLength(Indices(f.table, []), w);
    assert cs[0] == EncodeCount(0xD0, 1) + EncodeRefs(f.table, refs, w);
    assert cs[1] == cs[2] == EncodeCount(0xA0, 0) + EncodeRefs(f.table, [], w);
    ThreeChunks(cs);
  }

  lemma ThreeChunks(cs: seq<Bytes>)
    requires |cs| == 3
    ensures |Concat(cs)| == |cs[0]| + |cs[1]| + |cs[2]|
  {
    StartNext(cs, 0);
    StartNext(cs, 1);
    StartNext(cs, 2);
    assert cs[..0] == [] && cs[..3] == cs;
  }

  lemma EntriesNotEmpty(h: Heap, f: Flat)
    requires Writable(h, f)
    ensures forall i :: 0 <= i < |f.list| ==> |Entries(h, f)[i]| > 0
  {
    forall i | 0 <= i < |f.list|
      ensures |EncodeEntry(h, f, i)| > 0
    {
      EntryWritable(h, f, i);
    }
  }
}
