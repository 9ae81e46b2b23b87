/** When a property list read back is equal to the one written. */
module PlistExact {
  import opened PlistBytes
  import opened PlistGraph
  import opened PlistHeap
  import opened PlistWriter
  import opened PlistParse
  import opened PlistRoundTrip

  /** An integer that does not fit in 64 bits, as far as the reader is concerned. */
  predicate Wide(a: Atom) {
    a.Int128? && a.high != 0
  }

  predicate SameScalar(eq: AtomEq, a: Atom, b: Atom) {
    a == b || SameAtom(eq, a, b)
  }

  /** Equal property lists: scalar by scalar, with the library's equality of scalars. */
  predicate SameValue(eq: AtomEq, v: PValue, w: PValue)
    decreases v
  {
    match v
    case Scalar(a) => w.Scalar? && SameScalar(eq, a, w.atom)
    case Array(xs) => w.Array? && |w.elems| == |xs| && forall i :: 0 <= i < |xs| ==> SameValue(eq, xs[i], w.elems[i])
    case Dict(ks, vs) =>
      && w.Dict? && |w.keys| == |ks| && |w.vals| == |vs|
      && (forall i :: 0 <= i < |ks| ==> SameValue(eq, ks[i], w.keys[i]))
      && (forall i :: 0 <= i < |vs| ==> SameValue(eq, vs[i], w.vals[i]))
    case _ => v == w
  }

  lemma BuildSame(eq: AtomEq, kind: Kind, vs: seq<PValue>, ws: seq<PValue>)
    requires |vs| == |ws| && !kind.SetKind?
    ensures SameValue(eq, Build(kind, vs), Build(kind, ws)) <==>
            forall i :: 0 <= i < |vs| ==> SameValue(eq, vs[i], ws[i])
  {
    var n := |vs| / 2;
    if kind.DictKind? && SameValue(eq, Build(kind, vs), Build(kind, ws)) {
      forall i | 0 <= i < |vs| ensures SameValue(eq, vs[i], ws[i]) {
        if i < n {
          assert SameValue(eq, vs[..n][i], ws[..n][i]);
        } else {
          assert SameValue(eq, vs[n..][i - n], ws[n..][i - n]);
        }
      }
    }
  }

  /** The scalars at or below r are equal in two heaps. */
  ghost predicate AgreeBelow(eq: AtomEq, h: Heap, h': Heap, r: Ref)
    requires SameTree(h, h') && r < |h|
    decreases r
  {
    if h[r].Leaf? then SameScalar(eq, h'[r].atom, h[r].atom)
    else forall i :: 0 <= i < |Children(h[r])| ==> AgreeBelow(eq, h, h', Children(h[r])[i])
  }

  lemma {:induction false} SameValueIff(eq: AtomEq, h: Heap, h': Heap, r: Ref)
    requires SameTree(h, h') && r < |h|
    ensures SameValue(eq, Value(h', r), Value(h, r)) <==> AgreeBelow(eq, h, h', r)
    decreases r
  {
    if !h[r].Leaf? {
      var refs := Children(h[r]);
      ValuesAt(h, r, refs);
      ValuesAt(h', r, refs);
      forall i | 0 <= i < |refs|
        ensures SameValue(eq, Values(h', r, refs)[i], Values(h, r, refs)[i]) <==> AgreeBelow(eq, h, h', refs[i])
      {
        SameValueIff(eq, h, h', refs[i]);
      }
      BuildSame(eq, KindOf(h[r]), Values(h', r, refs), Values(h, r, refs));
    }
  }

  /** No entry of the list is a wide integer. */
  ghost predicate NoWideListed(h: Heap, f: Flat) {
    forall i :: 0 <= i < |f.list| && f.list[i] < |h| && h[f.list[i]].Leaf? ==> !Wide(h[f.list[i]].atom)
  }

  lemma {:induction false} NarrowAgrees(h: Heap, eq: AtomEq, f: Flat, r: Ref)
    requires Writable(h, f) && FlatOK(h, eq, f) && NoWideListed(h, f) && r < |h| && r in f.table
    ensures AgreeBelow(eq, h, AsRead(h, f), r)
    decreases r
  {
    assert Stands(h, eq, f, r);
    if h[r].Leaf? {
      ReadBackExact(Written(h, f, r));
    } else {
      EntryWritable(h, f, f.table[r]);
      forall i | 0 <= i < |Children(h[r])| ensures AgreeBelow(eq, h, AsRead(h, f), Children(h[r])[i]) {
        NarrowAgrees(h, eq, f, Children(h[r])[i]);
      }
    }
  }

  lemma {:induction false} AgreeReached(eq: AtomEq, h: Heap, h': Heap, r: Ref, u: Ref)
    requires SameTree(h, h') && r < |h| && Reaches(h, r, u) && AgreeBelow(eq, h, h', r)
    ensures u < |h| && AgreeBelow(eq, h, h', u)
    decreases r
  {
    if u != r {
      var i :| 0 <= i < |Children(h[r])| && Reaches(h, Children(h[r])[i], u);
      AgreeReached(eq, h, h', Children(h[r])[i], u);
    }
  }

  /** The equality tells a wide integer from its low half. */
  ghost predicate Separates(eq: AtomEq) {
    forall hi, lo {:trigger Int128(hi, lo)} :: hi != 0 ==> !eq(Int128(0, lo), Int128(hi, lo))
  }

  /** With no wide integer listed, what is read back is equal to what was written, whatever the equality. */
  lemma NarrowIsEqual(h: Heap, eq: AtomEq, root: Ref)
    requires root < |h| && NoWideListed(h, Flattening(h, eq, root))
    ensures SameValue(eq, Value(AsRead(h, Flattening(h, eq, root)), root), Value(h, root))
  {
    var f := Flattening(h, eq, root);
    FlatteningOK(h, eq, root);
    NarrowAgrees(h, eq, f, root);
    SameValueIff(eq, h, AsRead(h, f), root);
  }

  /** What is read back is equal to what was written if and only if no entry of the list is a wide integer. */
  lemma EqualIff(h: Heap, eq: AtomEq, root: Ref)
    requires root < |h| && Separates(eq)
    ensures var f := Flattening(h, eq, root);
      SameValue(eq, Value(AsRead(h, f), root), Value(h, root)) <==> NoWideListed(h, f)
  {
    var f := Flattening(h, eq, root);
    FlatteningOK(h, eq, root);
    SameValueIff(eq, h, AsRead(h, f), root);
    if NoWideListed(h, f) {
      NarrowIsEqual(h, eq, root);
    } else {
      var i :| 0 <= i < |f.list| && f.list[i] < |h| && h[f.list[i]].Leaf? && Wide(h[f.list[i]].atom);
      WideIsUnequal(h, eq, f, i);
      if AgreeBelow(eq, h, AsRead(h, f), root) {
        AgreeReached(eq, h, AsRead(h, f), root, f.list[i]);
      }
    }
  }

  lemma WideIsUnequal(h: Heap, eq: AtomEq, f: Flat, i: nat)
    requires FlatOK(h, eq, f) && Separates(eq) && i < |f.list| && f.list[i] < |h|
    requires h[f.list[i]].Leaf? && Wide(h[f.list[i]].atom)
    ensures !AgreeBelow(eq, h, AsRead(h, f), f.list[i])
  {
    OwnEntry(h, eq, f, i);
    var a := h[f.list[i]].atom;
    assert Int128(a.high, a.low) == a;
  }

  // ---------- conditions on the property list itself ----------

  /** No integer at or below r is wide. */
  ghost predicate Lossless(h: Heap, r: Ref)
    requires r < |h|
    decreases r
  {
    && (h[r].Leaf? ==> !Wide(h[r].atom))
    && forall i :: 0 <= i < |Children(h[r])| ==> Lossless(h, Children(h[r])[i])
  }

  lemma {:induction false} LosslessReached(h: Heap, r: Ref, u: Ref)
    requires r < |h| && Reaches(h, r, u) && Lossless(h, r)
    ensures u < |h| && Lossless(h, u)
    decreases r
  {
    if u != r {
      var i :| 0 <= i < |Children(h[r])| && Reaches(h, Children(h[r])[i], u);
      LosslessReached(h, Children(h[r])[i], u);
    }
  }

  /** Without a wide integer none is listed, so that the list is read back equal, whatever the equality. */
  lemma LosslessIsEqual(h: Heap, eq: AtomEq, root: Ref)
    requires root < |h| && Lossless(h, root)
    ensures NoWideListed(h, Flattening(h, eq, root))
    ensures SameValue(eq, Value(AsRead(h, Flattening(h, eq, root)), root), Value(h, root))
  {
    var f := Flattening(h, eq, root);
    FlatteningOK(h, eq, root);
    forall i | 0 <= i < |f.list| && f.list[i] < |h| && h[f.list[i]].Leaf? ensures !Wide(h[f.list[i]].atom) {
      LosslessReached(h, root, f.list[i]);
    }
    NarrowIsEqual(h, eq, root);
  }

  ghost predicate OnlyIdentical(eq: AtomEq) {
    forall a, b :: eq(a, b) ==> a == b
  }

  /** Where only identical scalars are unified, a wide integer that is reached is listed. */
  lemma {:induction false} ReachedIsListed(h: Heap, eq: AtomEq, f: Flat, r: Ref)
    requires Writable(h, f) && FlatOK(h, eq, f) && OnlyIdentical(eq) && NoWideListed(h, f) && r < |h| && r in f.table
    ensures Lossless(h, r)
    decreases r
  {
    assert Stands(h, eq, f, r);
    if !h[r].Leaf? {
      EntryWritable(h, f, f.table[r]);
      forall i | 0 <= i < |Children(h[r])| ensures Lossless(h, Children(h[r])[i]) {
        ReachedIsListed(h, eq, f, Children(h[r])[i]);
      }
    }
  }

  lemma {:induction false} SameIsIdentical(eq: AtomEq, v: PValue, w: PValue)
    requires OnlyIdentical(eq) && SameValue(eq, v, w)
    ensures v == w
    decreases v
  {
    match v
    case Array(xs) =>
      forall i | 0 <= i < |xs| ensures xs[i] == w.elems[i] {
        SameIsIdentical(eq, xs[i], w.elems[i]);
      }
    case Dict(ks, vs) =>
      forall i | 0 <= i < |ks| ensures ks[i] == w.keys[i] {
        SameIsIdentical(eq, ks[i], w.keys[i]);
      }
      forall i | 0 <= i < |vs| ensures vs[i] == w.vals[i] {
        SameIsIdentical(eq, vs[i], w.vals[i]);
      }
    case _ =>
  }

  lemma {:induction false} SameAsItself(eq: AtomEq, v: PValue)
    ensures SameValue(eq, v, v)
    decreases v
  {
    match v
    case Array(xs) =>
      forall i | 0 <= i < |xs| ensures SameValue(eq, xs[i], xs[i]) {
        SameAsItself(eq, xs[i]);
      }
    case Dict(ks, vs) =>
      forall i | 0 <= i < |ks| ensures SameValue(eq, ks[i], ks[i]) {
        SameAsItself(eq, ks[i]);
      }
      forall i | 0 <= i < |vs| ensures SameValue(eq, vs[i], vs[i]) {
        SameAsItself(eq, vs[i]);
      }
    case _ =>
  }

  /** Where only identical scalars are unified, the very value comes back if and only if it has no wide integer. */
  lemma IdenticalIff(h: Heap, eq: AtomEq, root: Ref)
    requires root < |h| && OnlyIdentical(eq)
    ensures Value(AsRead(h, Flattening(h, eq, root)), root) == Value(h, root) <==> Lossless(h, root)
  {
    var f := Flattening(h, eq, root);
    FlatteningOK(h, eq, root);
    EqualIff(h, eq, root);
    if NoWideListed(h, f) {
      ReachedIsListed(h, eq, f, root);
      SameIsIdentical(eq, Value(AsRead(h, f), root), Value(h, root));
    } else {
      SameAsItself(eq, Value(h, root));
      if Lossless(h, root) {
        LosslessIsEqual(h, eq, root);
      }
    }
  }

  // ---------- the library's equality of integers ----------

  const ALL_ONES: Word64 := SPAN64 - 1

  /** An integer as the 128-bit number that the library compares; one of 64 bits is sign-extended. */
  function Extended(a: Atom): (Word64, Word64)
    requires a.Int? || a.Int128?
  {
    match a
    case Int(bits) => (if bits < SPAN64 / 2 then 0 else ALL_ONES, bits)
    case Int128(hi, lo) => (hi, lo)
  }

  /** Integers of any width are equal by value; other scalars are taken to be equal when identical. */
  predicate IntegersEqual(a: Atom, b: Atom) {
    if (a.Int? || a.Int128?) && (b.Int? || b.Int128?) then Extended(a) == Extended(b) else a == b
  }

  lemma IntegersEqualSeparates()
    ensures Separates(IntegersEqual)
  {
  }

  /** An integer wider than 64 bits comes back as its low half, whatever the equality. */
  lemma WideIntegerIsLost(eq: AtomEq)
    ensures var h: Heap := [Node.Leaf(Int128(1, 5))];
      Value(h, 0) == Scalar(Int128(1, 5)) && Value(AsRead(h, Flattening(h, eq, 0)), 0) == Scalar(Int128(0, 5))
  {
    var h: Heap := [Node.Leaf(Int128(1, 5))];
    NewScalar(h, eq, Flat([], map[], []), 0);
    assert Flattening(h, eq, 0) == Flat([0], map[0 := 0], [0]);
  }

  /** -1 as an integer of 64 bits and of 128 bits, in an array in this order or in the other. */
  function MinusOnes(wideFirst: bool): Heap {
    [Node.Leaf(Int(ALL_ONES)), Node.Leaf(Int128(ALL_ONES, ALL_ONES)), Arr(if wideFirst then [1, 0] else [0, 1])]
  }

  /**
    The order decides: the integer met first stands for both. Behind the narrow
    one the wide one comes back equal; behind the wide one both are lost.
  */
  lemma OrderMatters(wideFirst: bool)
    ensures var h := MinusOnes(wideFirst); var f := Flattening(h, IntegersEqual, 2);
      && var read := Value(AsRead(h, f), 2);
        && read == (if wideFirst then Array([Scalar(Int128(0, ALL_ONES)), Scalar(Int128(0, ALL_ONES))])
                    else Array([Scalar(Int(ALL_ONES)), Scalar(Int(ALL_ONES))]))
        && (SameValue(IntegersEqual, read, Value(h, 2)) <==> !wideFirst) && !Lossless(h, 2)
  {
    var h := MinusOnes(wideFirst);
    var a, b := if wideFirst then 1 else 0, if wideFirst then 0 else 1;
    FlattenedPair(h, IntegersEqual, a, b);
    PairRead(h, a, b);
    PairWide(h, a, b);
    IntegersEqualSeparates();
    EqualIff(h, IntegersEqual, 2);
    assert Reaches(h, 1, 1) && !Lossless(h, 1) && Children(h[2])[if wideFirst then 0 else 1] == 1;
  }

  function PairFlat(a: Ref, b: Ref): Flat {
    Flat([2, a], map[2 := 0, a := 1, b := 1], [a])
  }

  lemma PairRead(h: Heap, a: Ref, b: Ref)
    requires |h| == 3 && a < 2 && b < 2 && a != b && h[2] == Arr([a, b]) && h[a].Leaf? && h[b].Leaf?
    ensures var v := Scalar(ReadBack(h[a].atom)); Value(AsRead(h, PairFlat(a, b)), 2) == Array([v, v])
  {
    var h' := AsRead(h, PairFlat(a, b));
    assert h'[2] == h[2] && Children(h'[2]) == [a, b];
    ValuesAt(h', 2, [a, b]);
    assert Value(h', a) == Value(h', b) == Scalar(ReadBack(h[a].atom));
    assert Values(h', 2, [a, b]) == [Value(h', a), Value(h', b)];
  }

  lemma PairWide(h: Heap, a: Ref, b: Ref)
    requires |h| == 3 && a < 2 && b < 2 && h[2] == Arr([a, b]) && h[a].Leaf?
    ensures NoWideListed(h, PairFlat(a, b)) <==> !Wide(h[a].atom)
  {
    assert PairFlat(a, b).list[1] == a;
  }

  /** Two equal scalars in an array share the entry of the first. */
  lemma FlattenedPair(h: Heap, eq: AtomEq, a: Ref, b: Ref)
    requires |h| == 3 && a < 2 && b < 2 && a != b && h[2] == Arr([a, b])
    requires Uniqued(h, a) && Uniqued(h, b) && Unifies(h, eq, a, b)
    ensures Flattening(h, eq, 2) == PairFlat(a, b)
  {
    var f0, f1 := Flat([2], map[2 := 0], []), Flat([2, a], map[2 := 0, a := 1], [a]);
    assert Appended(h, Flat([], map[], []), 2) == f0;
    NewScalar(h, eq, f0, a);
    EqualScalar(h, eq, f1, b, a);
    FoldPair(StepBelow(h, eq, 2), f0, a, b);
  }

  lemma NewScalar(h: Heap, eq: AtomEq, f: Flat, r: Ref)
    requires r < |h| && Uniqued(h, r) && f.members == [] && r !in f.table
    ensures Flattened(h, eq, f, r) == Flat(f.list + [r], f.table[r := |f.list|], [r])
  {
    assert Fold(StepBelow(h, eq, r), Appended(h, f, r), []) == Appended(h, f, r);
  }

  lemma EqualScalar(h: Heap, eq: AtomEq, f: Flat, r: Ref, u: Ref)
    requires r < |h| && Uniqued(h, r) && f.members == [u] && Unifies(h, eq, u, r)
    requires u != r && u in f.table && r !in f.table
    ensures Flattened(h, eq, f, r) == f.(table := f.table[r := f.table[u]])
  {
    assert Lookup(h, eq, f.members, r) == Some(u);
  }
}
