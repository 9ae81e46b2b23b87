/** What the writer emits is read back as the same property list. */
module PlistRoundTrip {
  import opened PlistBytes
  import opened PlistGraph
  import opened PlistFormat
  import opened PlistReader
  import opened PlistHeap
  import opened PlistWriter
  import opened PlistLayout
  import opened PlistParse

  // ---------- what it means to be the same property list ----------

  function KindOf(n: Node): Kind {
    if n.Dic? then DictKind else ArrayKind
  }

  /** The exact value of the object at r. */
  ghost function Value(h: Heap, r: Ref): PValue
    requires r < |h|
    decreases r, 0
  {
    if h[r].Leaf? then Scalar(h[r].atom)
    else Build(KindOf(h[r]), Values(h, r, Children(h[r])))
  }

  ghost function Values(h: Heap, r: Ref, refs: seq<Ref>): seq<PValue>
    requires r < |h| && Below(refs, r)
    decreases r, 0, |refs|
  {
    if refs == [] then [] else Values(h, r, refs[..|refs| - 1]) + [Value(h, refs[|refs| - 1])]
  }

  /** The values a container holds, in file order. */
  function Members(v: PValue): seq<PValue> {
    match v
    case Array(es) => es
    case Set(es) => es
    case Dict(ks, vs) => ks + vs
    case _ => []
  }

  /** The scalar written for r: that of the entry its index leads to. */
  ghost function Written(h: Heap, f: Flat, r: Ref): Atom
    requires r < |h| && h[r].Leaf?
  {
    if r in f.table && f.table[r] < |f.list| && f.list[f.table[r]] < |h| && h[f.list[f.table[r]]].Leaf?
    then h[f.list[f.table[r]]].atom else h[r].atom
  }

  /** The same objects with every scalar as it is read back. */
  ghost function AsRead(h: Heap, f: Flat): (h': Heap)
    ensures SameTree(h, h')
    ensures forall r :: 0 <= r < |h| && h[r].Leaf? ==> h'[r].atom == ReadBack(Written(h, f, r))
  {
    var h' := seq(|h|, r requires 0 <= r < |h| => if h[r].Leaf? then Node.Leaf(ReadBack(Written(h, f, r))) else h[r]);
    assert ValidHeap(h');
    h'
  }

  /** Heaps that differ in their scalars only. */
  ghost predicate SameTree(h: Heap, h': Heap) {
    && |h'| == |h|
    && forall r :: 0 <= r < |h| ==> if h[r].Leaf? then h'[r].Leaf? else h'[r] == h[r]
  }

  /** Every dictionary at or below r has scalar keys only. */
  ghost predicate ScalarKeys(h: Heap, r: Ref)
    requires r < |h|
    decreases r, 1
  {
    forall i :: 0 <= i < |Children(h[r])| ==> KidIsSound(h, r, i)
  }

  ghost predicate KidIsSound(h: Heap, r: Ref, j: nat)
    requires r < |h| && j < |Children(h[r])|
    decreases r, 0
  {
    var kids := Children(h[r]);
    ScalarKeys(h, kids[j]) && (h[r].Dic? && j < |kids| / 2 ==> h[kids[j]].Leaf?)
  }

  // ---------- a graph that mirrors a flattened heap ----------

  /** The object at offs[i] says what entry i of the list says, references included. */
  ghost predicate Mirrors(h: Heap, f: Flat, g: Graph, offs: seq<nat>, i: nat)
    requires Writable(h, f) && i < |f.list| == |offs|
    requires forall c :: c in f.table ==> f.table[c] < |f.list|
  {
    EntryWritable(h, f, i);
    var n := h[f.list[i]];
    if n.Leaf? then g(offs[i]) == Some(Shape.Leaf(Scalar(ReadBack(n.atom))))
    else g(offs[i]) == Some(Container(KindOf(n), Selected(offs, f.table, Children(n))))
  }

  ghost function Selected(offs: seq<nat>, table: map<Ref, nat>, refs: seq<Ref>): (s: seq<nat>)
    requires RefsIndexed(table, refs) && forall c :: c in table ==> table[c] < |offs|
    ensures |s| == |refs| && forall i :: 0 <= i < |refs| ==> s[i] == offs[table[refs[i]]]
  {
    seq(|refs|, i requires 0 <= i < |refs| => offs[table[refs[i]]])
  }

  ghost predicate MirrorsAll(h: Heap, eq: AtomEq, f: Flat, g: Graph, offs: seq<nat>) {
    && Writable(h, f) && FlatOK(h, eq, f) && |offs| == |f.list|
    && (forall c :: c in f.table ==> f.table[c] < |f.list|)
    && forall i :: 0 <= i < |f.list| ==> Mirrors(h, f, g, offs, i)
  }

  /** What is read back of the object at r: its value in h', if all dictionary keys are scalars. */
  ghost function ReadAs(h: Heap, h': Heap, r: Ref): Option<PValue>
    requires SameTree(h, h') && r < |h|
  {
    if ScalarKeys(h, r) then Some(Value(h', r)) else None
  }

  /** Whatever object an entry stands for is what the graph means there. */
  lemma {:induction false} MirrorIsFaithful(h: Heap, eq: AtomEq, f: Flat, g: Graph, offs: seq<nat>, i: nat, r: Ref)
    requires MirrorsAll(h, eq, f, g, offs) && i < |f.list| && r < |h| && r in f.table && f.list[f.table[r]] == f.list[i]
    ensures Meaning(g, offs[i]) == ReadAs(h, AsRead(h, f), r)
    decreases r
  {
    assert Mirrors(h, f, g, offs, i) && Stands(h, eq, f, r);
    MeaningOfObject(g, offs[i]);
    if !h[r].Leaf? {
      EntryWritable(h, f, i);
      var refs := Children(h[r]);
      var kids := Selected(offs, f.table, refs);
      forall j | 0 <= j < |refs|
        ensures Meaning(g, kids[j]) == ReadAs(h, AsRead(h, f), refs[j])
      {
        assert Stands(h, eq, f, refs[j]);
        MirrorIsFaithful(h, eq, f, g, offs, f.table[refs[j]], refs[j]);
      }
      ContainerFaithful(h, AsRead(h, f), g, kids, r);
    }
  }

  lemma ContainerFaithful(h: Heap, h': Heap, g: Graph, kids: seq<nat>, r: Ref)
    requires SameTree(h, h') && r < |h| && !h[r].Leaf? && |kids| == |Children(h[r])|
    requires forall j :: 0 <= j < |kids| ==> Meaning(g, kids[j]) == ReadAs(h, h', Children(h[r])[j])
    ensures Assemble(KindOf(h[r]), KidMeanings(g, KindOf(h[r]), kids, |kids|)) == ReadAs(h, h', r)
  {
    var kind, refs := KindOf(h[r]), Children(h[r]);
    var vs := KidMeanings(g, kind, kids, |kids|);
    forall j | 0 <= j < |kids|
      ensures KidIsFine(g, kind, kids, j) <==> KidIsSound(h, r, j)
    {
      assert Meaning(g, kids[j]) == ReadAs(h, h', refs[j]);
    }
    KeysIff(h, g, kids, r);
    if vs.Some? {
      KidMeaningsEach(g, kind, kids, |kids|);
      ValuesAt(h', r, refs);
      assert vs.value == Values(h', r, refs);
    }
  }

  lemma KeysIff(h: Heap, g: Graph, kids: seq<nat>, r: Ref)
    requires r < |h| && |kids| == |Children(h[r])|
    requires forall j :: 0 <= j < |kids| ==> (KidIsFine(g, KindOf(h[r]), kids, j) <==> KidIsSound(h, r, j))
    ensures KidMeanings(g, KindOf(h[r]), kids, |kids|).Some? <==> ScalarKeys(h, r)
  {
    KidMeaningsEach(g, KindOf(h[r]), kids, |kids|);
  }

  lemma {:induction false} ValuesAt(h: Heap, r: Ref, refs: seq<Ref>)
    requires r < |h| && Below(refs, r)
    ensures |Values(h, r, refs)| == |refs|
    ensures forall i :: 0 <= i < |refs| ==> Values(h, r, refs)[i] == Value(h, refs[i])
    decreases |refs|
  {
    if refs != [] {
      var n := |refs| - 1;
      var before := Values(h, r, refs[..n]);
      ValuesAt(h, r, refs[..n]);
      assert Values(h, r, refs) == before + [Value(h, refs[n])];
      forall i | 0 <= i < |refs| ensures (before + [Value(h, refs[n])])[i] == Value(h, refs[i]) {
        assert i < n ==> refs[..n][i] == refs[i];
      }
    }
  }

  // ---------- the written document mirrors the heap ----------

  lemma ObjectPlaced(cs: seq<Bytes>, i: nat)
    requires Proper(cs) && i < |cs|
    ensures Tiled(Laid(cs)) && Placed(Laid(cs), OffsetOf(cs, i), cs[i]) && OffsetOf(cs, i) >= 8
  {
    LaidTiles(cs);
    LaidObject(cs, i);
  }

  /** A scalar among the objects is read back at its offset. */
  lemma ScalarAt(cs: seq<Bytes>, i: nat, a: Atom)
    requires Proper(cs) && i < |cs| && ValidAtom(a) && cs[i] == EncodeAtom(a)
    ensures Tiled(Laid(cs))
    ensures ShapeOf(Laid(cs), RawAt(Laid(cs), OffsetOf(cs, i))) == Some(Shape.Leaf(Scalar(ReadBack(a))))
  {
    ObjectPlaced(cs, i);
    AtomReadsBack(Laid(cs), OffsetOf(cs, i), a);
  }

  ghost function OffsetsOf(cs: seq<Bytes>, vs: seq<nat>): (s: seq<nat>)
    requires forall j :: 0 <= j < |vs| ==> vs[j] < |cs|
    ensures |s| == |vs| && forall j :: 0 <= j < |vs| ==> s[j] == OffsetOf(cs, vs[j])
  {
    seq(|vs|, j requires 0 <= j < |vs| => OffsetOf(cs, vs[j]))
  }

  /** A container among the objects is read back as references to the offsets of its objects. */
  lemma ContainerAt(cs: seq<Bytes>, i: nat, n: nat, vs: seq<nat>, kind: Kind)
    requires Proper(cs) && i < |cs| && |vs| == (if kind.DictKind? then 2 * n else n) && 8 * |vs| < SPAN64
    requires forall j :: 0 <= j < |vs| ==> vs[j] < |cs|
    requires cs[i] == EncodeCount(Marker(kind), n) + Concat(FieldsOf(vs, ByteLength(|cs|)))
    ensures Tiled(Laid(cs))
    ensures ShapeOf(Laid(cs), RawAt(Laid(cs), OffsetOf(cs, i))) == Some(Container(kind, OffsetsOf(cs, vs)))
  {
    ObjectPlaced(cs, i);
    ByteLengthBounds(|cs|);
    forall j | 0 <= j < |vs|
      ensures vs[j] < Laid(cs).tr.numObjects && TableEntry(Laid(cs), vs[j]) == OffsetsOf(cs, vs)[j]
    {
      LaidEntry(cs, vs[j]);
    }
    ContainerReadsBack(Laid(cs), OffsetOf(cs, i), n, vs, kind, OffsetsOf(cs, vs));
  }

  /** How many elements the count of a container entry gives. */
  function ElementCount(n: Node): nat {
    match n
    case Leaf(_) => 0
    case Arr(es) => |es|
    case Dic(ks, _) => |ks|
  }

  /** The shape the document's graph gives object i. */
  ghost function ShapeAtObject(cs: seq<Bytes>, i: nat): Option<Shape>
    requires Proper(cs) && i < |cs|
  {
    GraphOf(Laid(cs))(OffsetOf(cs, i))
  }

  lemma LeafMirrored(cs: seq<Bytes>, i: nat, a: Atom)
    requires Proper(cs) && i < |cs| && ValidAtom(a) && cs[i] == EncodeAtom(a)
    ensures ShapeAtObject(cs, i) == Some(Shape.Leaf(Scalar(ReadBack(a))))
  {
    ScalarAt(cs, i, a);
  }

  lemma ContainerMirrored(cs: seq<Bytes>, i: nat, n: Node, table: map<Ref, nat>)
    requires Proper(cs) && i < |cs| && !n.Leaf? && RefsIndexed(table, Children(n)) && 8 * |Children(n)| < SPAN64
    requires forall c :: c in table ==> table[c] < |cs|
    requires n.Dic? ==> |n.keys| == |n.vals|
    requires cs[i] == EncodeNode(n, table, ByteLength(|cs|))
    ensures ShapeAtObject(cs, i) == Some(Container(KindOf(n), OffsetsOf(cs, Indices(table, Children(n)))))
  {
    NodeIsRow(n, table, ByteLength(|cs|));
    RowMirrored(cs, i, ElementCount(n), Indices(table, Children(n)), KindOf(n));
  }

  lemma NodeIsRow(n: Node, table: map<Ref, nat>, size: nat)
    requires !n.Leaf? && RefsIndexed(table, Children(n)) && (n.Dic? ==> |n.keys| == |n.vals|)
    ensures EncodeNode(n, table, size) ==
            EncodeCount(Marker(KindOf(n)), ElementCount(n)) + Concat(FieldsOf(Indices(table, Children(n)), size))
    ensures |Children(n)| == if KindOf(n).DictKind? then 2 * ElementCount(n) else ElementCount(n)
  {
  }

  lemma RowMirrored(cs: seq<Bytes>, i: nat, n: nat, vs: seq<nat>, kind: Kind)
    requires Proper(cs) && i < |cs| && |vs| == (if kind.DictKind? then 2 * n else n) && 8 * |vs| < SPAN64
    requires forall j :: 0 <= j < |vs| ==> vs[j] < |cs|
    requires cs[i] == EncodeCount(Marker(kind), n) + Concat(FieldsOf(vs, ByteLength(|cs|)))
    ensures ShapeAtObject(cs, i) == Some(Container(kind, OffsetsOf(cs, vs)))
  {
    ContainerAt(cs, i, n, vs, kind);
  }

  lemma EntryMirrored(h: Heap, f: Flat, i: nat)
    requires Writable(h, f) && Proper(Entries(h, f)) && i < |f.list|
    requires forall c :: c in f.table ==> f.table[c] < |f.list|
    ensures Mirrors(h, f, GraphOf(Laid(Entries(h, f))), Offsets(Entries(h, f)), i)
  {
    EntryWritable(h, f, i);
    var n, cs := h[f.list[i]], Entries(h, f);
    if n.Leaf? {
      LeafMirrored(cs, i, n.atom);
    } else {
      ContainerMirrored(cs, i, n, f.table);
      assert OffsetsOf(cs, Indices(f.table, Children(n))) == Selected(Offsets(cs), f.table, Children(n));
    }
  }

  lemma WrittenMirrors(h: Heap, eq: AtomEq, f: Flat)
    requires Writable(h, f) && FlatOK(h, eq, f) && Proper(Entries(h, f))
    ensures MirrorsAll(h, eq, f, GraphOf(Laid(Entries(h, f))), Offsets(Entries(h, f)))
  {
    var d := Laid(Entries(h, f));
    forall c | c in f.table
      ensures f.table[c] < |f.list|
    {
      assert Stands(h, eq, f, c);
    }
    forall i | 0 <= i < |f.list|
      ensures Mirrors(h, f, GraphOf(d), Offsets(Entries(h, f)), i)
    {
      EntryMirrored(h, f, i);
    }
  }

  /** What reading a document's top object gives. */
  ghost function TopMeaning(data: Bytes): Option<PValue>
    requires Acceptable(data)
  {
    Meaning(GraphOf(DocOf(data)), TableEntry(DocOf(data), DocOf(data).tr.topObject))
  }

  /**
    The round trip: the document is accepted, and its top object is read back,
    exactly when all dictionary keys are scalars, as the property list with each
    scalar as its entry is read back.
  */
  lemma RoundTrip(h: Heap, eq: AtomEq, f: Flat)
    requires Writable(h, f) && FlatOK(h, eq, f) && Proper(Entries(h, f))
    ensures f.list[0] < |h| && Acceptable(Document(Entries(h, f)))
    ensures TopMeaning(Document(Entries(h, f))) == ReadAs(h, AsRead(h, f), f.list[0])
  {
    var cs := Entries(h, f);
    WrittenMirrors(h, eq, f);
    LaidIsAcceptable(cs);
    OwnEntry(h, eq, f, 0);
    MirrorIsFaithful(h, eq, f, GraphOf(Laid(cs)), Offsets(cs), 0, f.list[0]);
  }

  /** What is listed is written as itself. */
  lemma OwnEntry(h: Heap, eq: AtomEq, f: Flat, i: nat)
    requires FlatOK(h, eq, f) && i < |f.list|
    ensures f.list[i] < |h| && f.list[i] in f.table && f.table[f.list[i]] < |f.list|
    ensures f.list[f.table[f.list[i]]] == f.list[i]
  {
    var r := f.list[i];
    assert PlistHeap.Listed(h, f, i) && Stands(h, eq, f, r);
    if Uniqued(h, r) {
      assert Owns(h, f, r);
    }
  }
}
