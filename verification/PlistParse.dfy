/** Reading back one encoded object wherever it stands in a document. */
module PlistParse {
  import opened PlistBytes
  import opened Bits
  import opened PlistGraph
  import opened PlistFormat
  import opened PlistHeap
  import opened PlistWriter

  /** The bytes s stand at offset o, before the offset table. */
  ghost predicate Placed(d: Doc, o: nat, s: Bytes)
    requires Tiled(d)
  {
    o + |s| <= d.tr.tableOffset && d.data[o..o + |s|] == s
  }

  lemma PlacedParts(d: Doc, o: nat, s: Bytes, t: Bytes)
    requires Tiled(d) && Placed(d, o, s + t)
    ensures Placed(d, o, s) && Placed(d, o + |s|, t)
  {
    SlicedParts(d.data, o, s, t);
  }

  lemma SlicedParts(data: Bytes, o: nat, s: Bytes, t: Bytes)
    requires o + |s + t| <= |data| && data[o..o + |s + t|] == s + t
    ensures data[o..o + |s|] == s && data[o + |s|..o + |s| + |t|] == t
  {
    var w := data[o..o + |s + t|];
    assert w[..|s|] == s && w[|s|..] == t;
    assert data[o..o + |s|] == w[..|s|];
    assert data[o + |s|..o + |s| + |t|] == w[|s|..];
  }

  lemma PlacedByte(d: Doc, o: nat, b: Byte, t: Bytes)
    requires Tiled(d) && Placed(d, o, [b] + t)
    ensures o < d.tr.tableOffset && d.data[o] == b && Placed(d, o + 1, t)
  {
    PlacedParts(d, o, [b], t);
    assert d.data[o..o + 1][0] == b;
  }

  /** Every 64-bit value fits in the width chosen for it. */
  lemma IntFits(v: nat)
    requires v < SPAN64
    ensures Pow2(IntExponent(v)) in {1, 2, 4, 8} && v < Pow256(Pow2(IntExponent(v)))
    ensures IntExponent(v) <= 3 && Pow2(IntExponent(v)) <= 8
  {
    Pow256Values();
    assert Pow2(0) == 1 && Pow2(1) == 2 && Pow2(2) == 4 && Pow2(3) == 8;
  }

  lemma ReadIntPlaced(d: Doc, p: nat, v: nat)
    requires Tiled(d) && Placed(d, p, EncodeInt(v)) && v < SPAN64
    ensures ReadInt(d, p) == Some((v, p + |EncodeInt(v)|))
  {
    var e := IntExponent(v);
    IntFits(v);
    PlacedByte(d, p, 0x10 + e, BigEndian(v, Pow2(e)));
    ReadsBack64(v, Pow2(e));
  }

  function CountNibble(n: nat): nat {
    if n < 15 then n else 15
  }

  lemma CountPlaced(d: Doc, o: nat, marker: int, n: nat, t: Bytes)
    requires Tiled(d) && 0 <= marker <= 0xf0 && marker % 16 == 0 && n <= LONG_MAX
    requires Placed(d, o, EncodeCount(marker, n) + t)
    ensures o < d.tr.tableOffset && d.data[o] == marker + CountNibble(n)
    ensures ReadCount(d, o) == Some((n, o + |EncodeCount(marker, n)|))
    ensures Placed(d, o + |EncodeCount(marker, n)|, t)
  {
    PlacedParts(d, o, EncodeCount(marker, n), t);
    CountReads(d, o, marker, n);
  }

  lemma CountReads(d: Doc, o: nat, marker: int, n: nat)
    requires Tiled(d) && 0 <= marker <= 0xf0 && marker % 16 == 0 && n <= LONG_MAX
    requires Placed(d, o, EncodeCount(marker, n))
    ensures o < d.tr.tableOffset && d.data[o] == marker + CountNibble(n)
    ensures ReadCount(d, o) == Some((n, o + |EncodeCount(marker, n)|))
  {
    if n < 15 {
      ShortCountReads(d, o, marker, n);
    } else {
      LongCountReads(d, o, marker, n);
    }
  }

  lemma ShortCountReads(d: Doc, o: nat, marker: int, n: nat)
    requires Tiled(d) && 0 <= marker <= 0xf0 && marker % 16 == 0 && n < 15 && Placed(d, o, [marker + n])
    ensures o < d.tr.tableOffset && d.data[o] == marker + n && ReadCount(d, o) == Some((n, o + 1))
  {
    PlacedByte(d, o, marker + n, []);
    Nibbles(marker, n);
  }

  lemma LongCountReads(d: Doc, o: nat, marker: int, n: nat)
    requires Tiled(d) && 0 <= marker <= 0xf0 && marker % 16 == 0 && 15 <= n <= LONG_MAX
    requires Placed(d, o, [marker + 15] + EncodeInt(n))
    ensures o < d.tr.tableOffset && d.data[o] == marker + 15
    ensures ReadCount(d, o) == Some((n, o + 1 + |EncodeInt(n)|))
  {
    PlacedByte(d, o, marker + 15, EncodeInt(n));
    Nibbles(marker, 15);
    ReadIntPlaced(d, o + 1, n);
    ReadsLongCount(d, o, n, o + 1 + |EncodeInt(n)|);
  }

  lemma ReadsLongCount(d: Doc, o: nat, n: nat, p: nat)
    requires Tiled(d) && o < d.tr.tableOffset && d.data[o] % 16 == 15
    requires n <= LONG_MAX && ReadInt(d, o + 1) == Some((n, p))
    ensures ReadCount(d, o) == Some((n, p))
  {
  }

  lemma Nibbles(marker: int, k: nat)
    requires 0 <= marker <= 0xf0 && marker % 16 == 0 && k < 16
    ensures (marker + k) % 16 == k
  {
  }

  /** What a scalar is read back as: itself, except that a wide integer keeps its low half only. */
  function ReadBack(a: Atom): Atom {
    match a
    case Int128(_, lo) => Int128(0, lo)
    case _ => a
  }

  /** Reading back is exact except for wide integers with a high half. */
  lemma ReadBackExact(a: Atom)
    ensures ReadBack(a) == a <==> !(a.Int128? && a.high != 0)
  {
  }

  lemma UnitsSwapped(u: seq<Unit16>)
    ensures Units(Swapped(u)) == u
  {
    var s := Swapped(u);
    forall i | 0 <= i < |u|
      ensures Units(s)[i] == u[i]
    {
      Halves(i);
      assert s[2 * i] == u[i] / 256 && s[2 * i + 1] == u[i] % 256;
      PairOfHalves(u[i]);
    }
  }

  lemma Halves(i: nat)
    ensures 2 * i / 2 == i && 2 * i % 2 == 0 && (2 * i + 1) / 2 == i && (2 * i + 1) % 2 == 1
  {
  }

  lemma PairOfHalves(x: Unit16)
    ensures Pair(x / 256, x % 256) == x
  {
  }

  lemma {:induction false} LowHalf(hi: nat, lo: nat)
    requires lo < SPAN64
    ensures Read64(BigEndian(hi, 8) + BigEndian(lo, 8)) == lo
  {
    Pow256Values();
    AppendValue(BigEndian(hi, 8), BigEndian(lo, 8));
    BigEndianRoundTrip(lo, 8);
    var high := FromBigEndian(BigEndian(hi, 8));
    assert FromBigEndian(BigEndian(hi, 8) + BigEndian(lo, 8)) == lo + high * SPAN64;
    ModShift(lo, high);
  }

  lemma Regroup(a: nat, p: nat)
    ensures 256 * (a * p) == a * (256 * p)
  {
  }

  lemma {:induction false} AppendValue(s: Bytes, t: Bytes)
    ensures FromBigEndian(s + t) == FromBigEndian(s) * Pow256(|t|) + FromBigEndian(t)
  {
    if t == [] {
      assert s + t == s;
    } else {
      var n := |t| - 1;
      AppendValue(s, t[..n]);
      assert (s + t)[..|s + t| - 1] == s + t[..n];
      Regroup(FromBigEndian(s), Pow256(n));
    }
  }

  lemma FixedPlaced(d: Doc, o: nat, marker: Byte, s: Bytes, form: Form)
    requires Tiled(d) && 8 <= o && Placed(d, o, [marker] + s) && TagOf(marker) == Sized(|s|, form)
    ensures RawAt(d, o) == AsRaw(Decode(form, s))
  {
    PlacedByte(d, o, marker, s);
  }

  lemma CountedPlaced(d: Doc, o: nat, marker: int, n: nat, s: Bytes, form: Form)
    requires Tiled(d) && 8 <= o && 0 <= marker <= 0xf0 && marker % 16 == 0 && |s| == Extent(form, n)
    requires TagOf(marker + CountNibble(n)) == Listed(form)
    requires Placed(d, o, EncodeCount(marker, n) + s)
    ensures RawAt(d, o) == AsRaw(Decode(form, s))
  {
    CountPlaced(d, o, marker, n, s);
    CountedAt(d, o, marker + CountNibble(n), n, o + |EncodeCount(marker, n)|, s, form);
  }

  lemma CountedAt(d: Doc, o: nat, marker: Byte, n: nat, ptr: nat, s: Bytes, form: Form)
    requires Tiled(d) && 8 <= o < d.tr.tableOffset && d.data[o] == marker && TagOf(marker) == Listed(form)
    requires ReadCount(d, o) == Some((n, ptr)) && |s| == Extent(form, n) && Placed(d, ptr, s)
    ensures RawAt(d, o) == AsRaw(Decode(form, s))
  {
  }

  lemma AsciiReadsBack(d: Doc, o: nat, u: seq<Unit16>)
    requires Tiled(d) && 8 <= o && IsAscii(u) && Placed(d, o, EncodeCount(0x50, |u|) + Narrow(u))
    ensures RawAt(d, o) == Some(Whole(Scalar(Str(u))))
  {
    assert Widen(Narrow(u)) == u;
    CountedPlaced(d, o, 0x50, |u|, Narrow(u), AsciiForm);
  }

  lemma Utf16ReadsBack(d: Doc, o: nat, u: seq<Unit16>)
    requires Tiled(d) && 8 <= o && Placed(d, o, EncodeCount(0x60, |u|) + Swapped(u))
    ensures RawAt(d, o) == Some(Whole(Scalar(Str(u))))
  {
    var s := Swapped(u);
    CountedPlaced(d, o, 0x60, |u|, s, Utf16Form);
    UnitsSwapped(u);
  }

  lemma IntReadsBack(d: Doc, o: nat, v: Word64)
    requires Tiled(d) && 8 <= o && Placed(d, o, EncodeInt(v))
    ensures RawAt(d, o) == Some(Whole(Scalar(Int(v))))
  {
    var e := IntExponent(v);
    IntFits(v);
    IntTag(e);
    FixedPlaced(d, o, 0x10 + e, BigEndian(v, Pow2(e)), IntForm);
    ReadsBack64(v, Pow2(e));
  }

  lemma IntTag(e: nat)
    requires e <= 3
    ensures TagOf(0x10 + e) == Sized(Pow2(e), IntForm)
  {
    Nibbles(0x10, e);
  }

  lemma UidReadsBack(d: Doc, o: nat, v: nat)
    requires Tiled(d) && 8 <= o && v < 0x1_0000_0000 && Placed(d, o, EncodeAtom(Uid(v)))
    ensures RawAt(d, o) == Some(Whole(Scalar(Uid(v))))
  {
    var n := Pow2(IntExponent(v));
    IntFits(v);
    FixedPlaced(d, o, 0x80 + n - 1, BigEndian(v, n), UidForm);
    ReadsBack64(v, n);
  }

  /** Every scalar the writer emits is read back. */
  lemma AtomReadsBack(d: Doc, o: nat, a: Atom)
    requires Tiled(d) && 8 <= o && ValidAtom(a) && Placed(d, o, EncodeAtom(a))
    ensures RawAt(d, o) == Some(Whole(Scalar(ReadBack(a))))
  {
    match a
    case Str(u) =>
      if IsAscii(u) {
        AsciiReadsBack(d, o, u);
      } else {
        Utf16ReadsBack(d, o, u);
      }
    case Int(v) => IntReadsBack(d, o, v);
    case Int128(hi, lo) =>
      assert Pow2(4) == 16;
      LowHalf(hi, lo);
      FixedPlaced(d, o, 0x14, BigEndian(hi, 8) + BigEndian(lo, 8), IntForm);
    case Real(s) => FixedPlaced(d, o, if |s| == 4 then 0x22 else 0x23, s, RealForm);
    case Date(s) => FixedPlaced(d, o, 0x33, s, DateForm);
    case Data(s) => CountedPlaced(d, o, 0x40, |s|, s, DataForm);
    case Bool(b) => PlacedByte(d, o, if b then 0x09 else 0x08, []);
    case Uid(v) => UidReadsBack(d, o, v);
  }

  /** A reference to object number v, wherever it is stored. */
  lemma RefReadsBack(d: Doc, p: nat, v: nat)
    requires Tiled(d) && 8 <= p && Placed(d, p, BigEndian(v, d.tr.objectRefSize))
    requires v < d.tr.numObjects && v < Pow256(d.tr.objectRefSize)
    ensures OffsetOfRef(d, p) == TableEntry(d, v)
  {
    ReadsBack64(v, d.tr.objectRefSize);
  }

  /** A row of references is read back as the offsets of the objects referred to. */
  lemma RowReadsBack(d: Doc, ptr: nat, vs: seq<nat>, i: nat)
    requires Tiled(d) && 8 <= ptr && Placed(d, ptr, Concat(FieldsOf(vs, d.tr.objectRefSize))) && i < |vs|
    requires vs[i] < d.tr.numObjects && vs[i] < Pow256(d.tr.objectRefSize)
    ensures Kid(d, ptr, i) == TableEntry(d, vs[i])
  {
    var size := d.tr.objectRefSize;
    FieldAt(vs, size, i);
    PlacedSlice(d, ptr, Concat(FieldsOf(vs, size)), Fields(i, size), size);
    RefReadsBack(d, RefAt(d.tr, ptr, i), vs[i]);
  }

  function Marker(kind: Kind): int {
    match kind
    case ArrayKind => 0xA0
    case SetKind => 0xC0
    case DictKind => 0xD0
  }

  /** A container is read back as its row of references. */
  lemma RefsReadBack(d: Doc, o: nat, n: nat, vs: seq<nat>, kind: Kind)
    requires Tiled(d) && 8 <= o && |vs| == (if kind.DictKind? then 2 * n else n) && 8 * |vs| < SPAN64
    requires Placed(d, o, EncodeCount(Marker(kind), n) + Concat(FieldsOf(vs, d.tr.objectRefSize)))
    ensures var ptr := o + |EncodeCount(Marker(kind), n)|;
            && RawAt(d, o) == Some(Parts(kind, ptr, |vs|))
            && Placed(d, ptr, Concat(FieldsOf(vs, d.tr.objectRefSize)))
  {
    var row := Concat(FieldsOf(vs, d.tr.objectRefSize));
    FieldsLength(vs, d.tr.objectRefSize);
    LinkedPlaced(d, o, n, row, kind);
  }

  lemma LinkedPlaced(d: Doc, o: nat, n: nat, row: Bytes, kind: Kind)
    requires Tiled(d) && 8 <= o && Placed(d, o, EncodeCount(Marker(kind), n) + row)
    requires var cnt := if kind.DictKind? then 2 * n else n;
      8 * cnt < SPAN64 && |row| == Fields(cnt, d.tr.objectRefSize)
    ensures var ptr := o + |EncodeCount(Marker(kind), n)|;
            RawAt(d, o) == Some(Parts(kind, ptr, if kind.DictKind? then 2 * n else n)) && Placed(d, ptr, row)
  {
    CountPlaced(d, o, Marker(kind), n, row);
    LinkedTag(kind, CountNibble(n));
    ReferencesAt(d, o, Marker(kind) + CountNibble(n), n, o + |EncodeCount(Marker(kind), n)|, row, kind);
  }

  lemma LinkedTag(kind: Kind, k: nat)
    requires k < 16
    ensures TagOf(Marker(kind) + k) == Linked(kind)
  {
  }

  lemma ReferencesAt(d: Doc, o: nat, marker: Byte, n: nat, ptr: nat, row: Bytes, kind: Kind)
    requires Tiled(d) && 8 <= o < d.tr.tableOffset && d.data[o] == marker && TagOf(marker) == Linked(kind)
    requires ReadCount(d, o) == Some((n, ptr)) && Placed(d, ptr, row)
    requires var cnt := if kind.DictKind? then 2 * n else n;
      8 * cnt < SPAN64 && |row| == Fields(cnt, d.tr.objectRefSize)
    ensures RawAt(d, o) == Some(Parts(kind, ptr, if kind.DictKind? then 2 * n else n))
  {
  }

  lemma PlacedSlice(d: Doc, o: nat, s: Bytes, x: nat, n: nat)
    requires Tiled(d) && Placed(d, o, s) && x + n <= |s|
    ensures Placed(d, o + x, s[x..x + n])
  {
    assert d.data[o + x..o + x + n] == d.data[o..o + |s|][x..x + n];
  }

  /** A container whose references are objects at known offsets. */
  lemma ContainerReadsBack(d: Doc, o: nat, n: nat, vs: seq<nat>, kind: Kind, targets: seq<nat>)
    requires Tiled(d) && 8 <= o && |vs| == (if kind.DictKind? then 2 * n else n) && 8 * |vs| < SPAN64
    requires d.tr.numObjects <= Pow256(d.tr.objectRefSize) && |targets| == |vs|
    requires forall j :: 0 <= j < |vs| ==> vs[j] < d.tr.numObjects && TableEntry(d, vs[j]) == targets[j]
    requires Placed(d, o, EncodeCount(Marker(kind), n) + Concat(FieldsOf(vs, d.tr.objectRefSize)))
    ensures ShapeOf(d, RawAt(d, o)) == Some(Container(kind, targets))
  {
    RefsReadBack(d, o, n, vs, kind);
    var ptr := o + |EncodeCount(Marker(kind), n)|;
    ContainerShape(d, RawAt(d, o), kind, ptr, vs, targets);
  }

  lemma ContainerShape(d: Doc, raw: Option<Raw>, kind: Kind, ptr: nat, vs: seq<nat>, targets: seq<nat>)
    requires Tiled(d) && 8 <= ptr && Placed(d, ptr, Concat(FieldsOf(vs, d.tr.objectRefSize)))
    requires d.tr.numObjects <= Pow256(d.tr.objectRefSize) && |targets| == |vs|
    requires forall j :: 0 <= j < |vs| ==> vs[j] < d.tr.numObjects && TableEntry(d, vs[j]) == targets[j]
    requires raw == Some(Parts(kind, ptr, |vs|))
    ensures ShapeOf(d, raw) == Some(Container(kind, targets))
  {
    KidsReadBack(d, ptr, vs, targets);
  }

  lemma KidsReadBack(d: Doc, ptr: nat, vs: seq<nat>, targets: seq<nat>)
    requires Tiled(d) && 8 <= ptr && Placed(d, ptr, Concat(FieldsOf(vs, d.tr.objectRefSize)))
    requires d.tr.numObjects <= Pow256(d.tr.objectRefSize) && |targets| == |vs|
    requires forall j :: 0 <= j < |vs| ==> vs[j] < d.tr.numObjects && TableEntry(d, vs[j]) == targets[j]
    ensures Kids(d, ptr, |vs|) == targets
  {
    forall j | 0 <= j < |vs|
      ensures Kids(d, ptr, |vs|)[j] == targets[j]
    {
      RowReadsBack(d, ptr, vs, j);
    }
  }
}
