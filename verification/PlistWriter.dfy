/** Writing a binary property list: the document it stands for, the write buffer, and the writer. */
module PlistWriter {
  import opened PlistBytes
  import opened Bits
  import opened PlistGraph
  import opened PlistHeap

  // ---------- the document ----------

  /** An integer takes 2^e bytes for the least e that is enough. */
  function IntExponent(v: nat): nat {
    if v <= 0xff then 0 else if v <= 0xffff then 1 else if v <= 0xffff_ffff then 2 else 3
  }

  function EncodeInt(v: nat): Bytes {
    [0x10 + IntExponent(v)] + BigEndian(v, Pow2(IntExponent(v)))
  }

  /** A marker with a count: in its low four bits, or in an integer after it. */
  function EncodeCount(marker: int, n: nat): (s: Bytes)
    requires 0 <= marker <= 0xf0
    ensures |s| > 0
  {
    if n < 15 then [marker + n] else [marker + 15] + EncodeInt(n)
  }

  predicate IsAscii(u: seq<Unit16>) {
    forall i :: 0 <= i < |u| ==> u[i] < 0x80
  }

  function Narrow(u: seq<Unit16>): Bytes
    requires IsAscii(u)
  {
    seq(|u|, i requires 0 <= i < |u| => u[i])
  }

  /** UTF-16 units, high byte first. */
  function Swapped(u: seq<Unit16>): (s: Bytes)
    ensures |s| == 2 * |u|
  {
    seq(2 * |u|, i requires 0 <= i < 2 * |u| => if i % 2 == 0 then u[i / 2] / 256 else u[i / 2] % 256)
  }

  function EncodeAtom(a: Atom): Bytes
    requires ValidAtom(a)
  {
    match a
    case Str(u) => if IsAscii(u) then EncodeCount(0x50, |u|) + Narrow(u) else EncodeCount(0x60, |u|) + Swapped(u)
    case Int(v) => EncodeInt(v)
    case Int128(hi, lo) => [0x14] + (BigEndian(hi, 8) + BigEndian(lo, 8))
    case Real(s) => (if |s| == 4 then [0x22] else [0x23]) + s
    case Date(s) => [0x33] + s
    case Data(s) => EncodeCount(0x40, |s|) + s
    case Bool(b) => if b then [0x09] else [0x08]
    case Uid(v) => [0x80 + Pow2(IntExponent(v)) - 1] + BigEndian(v, Pow2(IntExponent(v)))
  }

  function Indices(table: map<Ref, nat>, refs: seq<Ref>): seq<nat>
    requires RefsIndexed(table, refs)
  {
    seq(|refs|, i requires 0 <= i < |refs| => table[refs[i]])
  }

  function EncodeRefs(table: map<Ref, nat>, refs: seq<Ref>, size: nat): Bytes
    requires RefsIndexed(table, refs)
  {
    Concat(FieldsOf(Indices(table, refs), size))
  }

  function EncodeNode(n: Node, table: map<Ref, nat>, size: nat): Bytes
    requires n.Leaf? ==> ValidAtom(n.atom)
    requires RefsIndexed(table, Children(n))
  {
    match n
    case Leaf(a) => EncodeAtom(a)
    case Arr(es) => EncodeCount(0xA0, |es|) + EncodeRefs(table, es, size)
    case Dic(ks, vs) => EncodeCount(0xD0, |ks|) + EncodeRefs(table, ks + vs, size)
  }

  /** A flattened heap that can be written: everything its entries refer to is indexed. */
  ghost predicate Writable(h: Heap, f: Flat) {
    Closed(h, f, 0)
  }

  lemma EntryWritable(h: Heap, f: Flat, i: nat)
    requires Writable(h, f) && i < |f.list|
    ensures f.list[i] < |h| && RefsIndexed(f.table, Children(h[f.list[i]]))
    ensures h[f.list[i]].Leaf? ==> ValidAtom(h[f.list[i]].atom)
  {
    assert EntryClosed(h, f, i);
  }

  function EncodeEntry(h: Heap, f: Flat, i: nat): Bytes
    requires Writable(h, f) && i < |f.list|
  {
    EntryWritable(h, f, i);
    EncodeNode(h[f.list[i]], f.table, ByteLength(|f.list|))
  }

  /** The encoded objects, in list order; references are as wide as the number of objects needs. */
  function Entries(h: Heap, f: Flat): (cs: seq<Bytes>)
    requires Writable(h, f)
    ensures |cs| == |f.list|
  {
    seq(|f.list|, i requires 0 <= i < |f.list| => EncodeEntry(h, f, i))
  }
}
