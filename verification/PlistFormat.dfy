/**
  The binary property list format as the reader understands it: the trailer, the
  offset table, and what one object says, without following its references.
*/
module PlistFormat {
  import opened PlistBytes
  import opened Bits
  import opened PlistGraph

  datatype Trailer =
    Trailer(offsetIntSize: Byte, objectRefSize: Byte, numObjects: nat, topObject: nat, tableOffset: nat)

  datatype Doc = Doc(data: Bytes, tr: Trailer)

  const MAX_OFFSET: nat := SPAN64 - 1

  // ---------- the trailer and the offset table ----------

  /** Where entry i of the offset table starts. */
  function EntryAt(tr: Trailer, i: nat): nat {
    tr.tableOffset + Fields(i, tr.offsetIntSize)
  }

  /** Objects, offset table and trailer tile the data. */
  predicate Tiled(d: Doc) {
    && 9 <= d.tr.tableOffset <= LONG_MAX
    && 1 <= d.tr.numObjects <= LONG_MAX
    && d.tr.topObject < d.tr.numObjects
    && 1 <= d.tr.offsetIntSize && 1 <= d.tr.objectRefSize
    && EntryAt(d.tr, d.tr.numObjects) + 32 == |d.data| < SPAN64
  }

  lemma EntryInTable(tr: Trailer, i: nat)
    requires i < tr.numObjects
    ensures EntryAt(tr, i) + tr.offsetIntSize == EntryAt(tr, i + 1) <= EntryAt(tr, tr.numObjects)
  {
    FieldsMonotone(i + 1, tr.numObjects, tr.offsetIntSize);
  }

  function TableEntry(d: Doc, i: nat): nat
    requires Tiled(d) && i < d.tr.numObjects
  {
    EntryInTable(d.tr, i);
    Read64(d.data[EntryAt(d.tr, i)..EntryAt(d.tr, i) + d.tr.offsetIntSize])
  }

  /** A document whose trailer has been accepted. */
  ghost predicate Accepted(d: Doc) {
    && Tiled(d)
    && forall i :: 0 <= i < d.tr.numObjects ==> TableEntry(d, i) < d.tr.tableOffset
  }

  /** The offset a reference stored at position p leads to, or the failure value. */
  function OffsetOfRef(d: Doc, p: int): nat
    requires Tiled(d)
  {
    if p < 8 || d.tr.tableOffset - d.tr.objectRefSize < p then MAX_OFFSET else
      var ref := Read64(d.data[p..p + d.tr.objectRefSize]);
      if d.tr.numObjects <= ref then MAX_OFFSET else TableEntry(d, ref)
  }

  /** References are read inside the data and lead below the offset table, or fail. */
  lemma RefsStayInside(d: Doc, p: int)
    requires Accepted(d)
    ensures OffsetOfRef(d, p) == MAX_OFFSET || OffsetOfRef(d, p) < d.tr.tableOffset
  {
  }

  // ---------- one object ----------

  /** An embedded integer at p: its value and the position after it. */
  function ReadInt(d: Doc, p: nat): Option<(nat, nat)>
    requires Tiled(d)
  {
    if d.tr.tableOffset <= p || d.data[p] / 16 != 1 then None else
      var n := Pow2(d.data[p] % 16);
      if d.tr.tableOffset <= p + n then None else Some((Read64(d.data[p + 1..p + 1 + n]), p + 1 + n))
  }

  /** The element count of the object at o and where its content starts. */
  function ReadCount(d: Doc, o: nat): Option<(nat, nat)>
    requires Tiled(d) && o < d.tr.tableOffset
  {
    var n := d.data[o] % 16;
    if n < 15 then Some((n, o + 1)) else
      var r := ReadInt(d, o + 1);
      if r.Some? && r.value.0 <= LONG_MAX then r else None
  }

  /** One object as stored: a value, or where a container's references start and how many there are. */
  datatype Raw = Whole(value: PValue) | Parts(kind: Kind, ptr: nat, cnt: nat)

  function Pair(hi: Byte, lo: Byte): Unit16 {
    256 * (hi as int) + lo
  }

  function Units(s: Bytes): seq<Unit16> {
    seq(|s| / 2, i requires 0 <= i < |s| / 2 => Pair(s[2 * i], s[2 * i + 1]))
  }

  /** ASCII string bytes widen to 16-bit units as they are. */
  function Widen(s: Bytes): seq<Unit16> {
    seq(|s|, i requires 0 <= i < |s| => s[i])
  }

  /** How the content bytes of a scalar are to be understood. */
  datatype Form = IntForm | RealForm | DateForm | DataForm | AsciiForm | Utf16Form | UidForm

  function Decode(form: Form, s: Bytes): Option<PValue> {
    match form
    case IntForm =>
      if 16 < |s| then None
      else if 8 < |s| then Some(Scalar(Int128(0, Read64(s))))
      else Some(Scalar(Int(Read64(s))))
    case RealForm => Some(Scalar(Real(s)))
    case DateForm => Some(Scalar(Date(s)))
    case DataForm => Some(Scalar(Data(s)))
    case AsciiForm => Some(Scalar(Str(Widen(s))))
    case Utf16Form => Some(Scalar(Str(Units(s))))
    case UidForm => if Read64(s) < 0x1_0000_0000 then Some(Scalar(Uid(Read64(s)))) else None
  }

  function AsRaw(v: Option<PValue>): Option<Raw> {
    match v
    case None => None
    case Some(x) => Some(Whole(x))
  }

  /** A scalar of n content bytes after its marker. */
  function Fixed(d: Doc, o: nat, n: nat, form: Form): Option<Raw>
    requires Tiled(d) && o < d.tr.tableOffset
  {
    if d.tr.tableOffset <= o + n then None else AsRaw(Decode(form, d.data[o + 1..o + 1 + n]))
  }

  /** The content bytes of cnt elements. */
  function Extent(form: Form, cnt: nat): nat {
    if form.Utf16Form? then 2 * cnt else cnt
  }

  /** A scalar with an element count. */
  function Counted(d: Doc, o: nat, form: Form): Option<Raw>
    requires Tiled(d) && o < d.tr.tableOffset
  {
    match ReadCount(d, o)
    case None => None
    case Some((cnt, ptr)) =>
      if d.tr.tableOffset < ptr + Extent(form, cnt) then None
      else AsRaw(Decode(form, d.data[ptr..ptr + Extent(form, cnt)]))
  }

  /** A container: its reference count and where the references start. */
  function References(d: Doc, o: nat, kind: Kind): Option<Raw>
    requires Tiled(d) && o < d.tr.tableOffset
  {
    match ReadCount(d, o)
    case None => None
    case Some((n, ptr)) =>
      var cnt := if kind.DictKind? then 2 * n else n;
      if d.tr.tableOffset < RefAt(d.tr, ptr, cnt) || SPAN64 <= cnt * 8 then None
      else Some(Parts(kind, ptr, cnt))
  }

  /** What a marker announces. */
  datatype Tag = Plain(v: PValue) | Sized(n: nat, f: Form) | Listed(f: Form) | Linked(kind: Kind) | Unknown

  /** The meaning of a marker, by its high four bits. */
  function TagOf(marker: Byte): Tag {
    match marker / 16
    case 0 =>
      if marker == 0x00 then Plain(Null)
      else if marker == 0x08 then Plain(Scalar(Bool(false)))
      else if marker == 0x09 then Plain(Scalar(Bool(true)))
      else Unknown
    case 1 => Sized(Pow2(marker % 16), IntForm)
    case 2 => if marker == 0x22 then Sized(4, RealForm) else if marker == 0x23 then Sized(8, RealForm) else Unknown
    case 3 => if marker == 0x33 then Sized(8, DateForm) else Unknown
    case 4 => Listed(DataForm)
    case 5 => Listed(AsciiForm)
    case 6 => Listed(Utf16Form)
    case 8 => Sized(marker % 16 + 1, UidForm)
    case 10 => Linked(ArrayKind)
    case 12 => Linked(SetKind)
    case 13 => Linked(DictKind)
    case _ => Unknown
  }

  /** What the object at offset o says. */
  function RawAt(d: Doc, o: nat): Option<Raw>
    requires Tiled(d)
  {
    if o < 8 || d.tr.tableOffset <= o then None else
      match TagOf(d.data[o])
      case Plain(v) => Some(Whole(v))
      case Sized(n, form) => Fixed(d, o, n, form)
      case Listed(form) => Counted(d, o, form)
      case Linked(kind) => References(d, o, kind)
      case Unknown => None
  }

  /** Where the i-th reference of a container is stored. */
  function RefAt(tr: Trailer, ptr: nat, i: nat): nat {
    ptr + Fields(i, tr.objectRefSize)
  }

  lemma NextRef(tr: Trailer, ptr: nat, i: nat)
    ensures RefAt(tr, ptr, i) + tr.objectRefSize == RefAt(tr, ptr, i + 1)
  {
  }

  /** The offset of the i-th object a container refers to. */
  function Kid(d: Doc, ptr: nat, i: nat): nat
    requires Tiled(d)
  {
    OffsetOfRef(d, RefAt(d.tr, ptr, i))
  }

  /** The offsets of all the objects a container refers to. */
  function Kids(d: Doc, ptr: nat, cnt: nat): (ks: seq<nat>)
    requires Tiled(d)
    ensures |ks| == cnt
    ensures forall i :: 0 <= i < cnt ==> ks[i] == Kid(d, ptr, i)
  {
    seq(cnt, i requires 0 <= i < cnt => Kid(d, ptr, i))
  }

  function ShapeOf(d: Doc, r: Option<Raw>): Option<Shape>
    requires Tiled(d)
  {
    match r
    case None => None
    case Some(Whole(v)) => Some(Leaf(v))
    case Some(Parts(kind, ptr, cnt)) => Some(Container(kind, Kids(d, ptr, cnt)))
  }

  /** The document as a graph of objects: what each offset holds and refers to. */
  function GraphOf(d: Doc): Graph {
    (o: nat) => if Tiled(d) then ShapeOf(d, RawAt(d, o)) else None
  }

  ghost predicate Shows(d: Doc, g: Graph, o: nat)
    requires Tiled(d)
  {
    g(o) == ShapeOf(d, RawAt(d, o))
  }

  /** The graph says of every offset what the document holds there. */
  ghost predicate Describes(d: Doc, g: Graph)
    requires Tiled(d)
  {
    forall o: nat :: Shows(d, g, o)
  }

  lemma GraphOfDescribes(d: Doc)
    requires Tiled(d)
    ensures Describes(d, GraphOf(d))
  {
  }
}
