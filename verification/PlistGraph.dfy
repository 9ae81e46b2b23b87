/**
  Property list values, and graphs of objects that refer to one another: when an
  object has a finite, well-formed unfolding, and what its value then is.
*/
module PlistGraph {
  import opened PlistBytes

  datatype Option<+T> = None | Some(value: T)

  type Unit16 = x: int | 0 <= x < 0x1_0000
  type Word64 = x: int | 0 <= x < SPAN64

  /** Scalar property list objects; floating-point values are their stored bytes. */
  datatype Atom =
    | Str(units: seq<Unit16>)
    | Int(bits: Word64)
    | Int128(high: Word64, low: Word64)
    | Real(bytes: Bytes)
    | Date(bytes: Bytes)
    | Data(bytes: Bytes)
    | Bool(on: bool)
    | Uid(id: int)

  /** What the reader builds. A dictionary keeps its keys and values in file order. */
  datatype PValue =
    | Null
    | Scalar(atom: Atom)
    | Array(elems: seq<PValue>)
    | Set(elems: seq<PValue>)
    | Dict(keys: seq<PValue>, vals: seq<PValue>)

  predicate IsPrimitive(v: PValue) {
    v.Null? || v.Scalar?
  }

  datatype Kind = ArrayKind | SetKind | DictKind

  /** One object of a graph: a value of its own, or a container of other objects. */
  datatype Shape = Leaf(value: PValue) | Container(kind: Kind, kids: seq<nat>)

  type Graph = nat -> Option<Shape>

  function Build(kind: Kind, vs: seq<PValue>): PValue {
    match kind
    case ArrayKind => Array(vs)
    case SetKind => Set(vs)
    case DictKind => Dict(vs[..|vs| / 2], vs[|vs| / 2..])
  }

  /** Whether the i-th of cnt objects may be v: the keys of a dictionary are primitive. */
  predicate Admits(kind: Kind, cnt: nat, i: nat, v: PValue) {
    kind.DictKind? && i < cnt / 2 ==> IsPrimitive(v)
  }

  /** The value of the object at o when its references are followed less than n deep. */
  ghost function UnfoldN(g: Graph, o: nat, n: nat): Option<PValue>
    decreases n, 0, 0
  {
    if n == 0 || g(o).None? then None
    else if g(o).value.Leaf? then Some(g(o).value.value)
    else Assemble(g(o).value.kind, UnfoldKids(g, g(o).value.kind, g(o).value.kids, |g(o).value.kids|, n - 1))
  }

  function Assemble(kind: Kind, vs: Option<seq<PValue>>): Option<PValue> {
    if vs.Some? then Some(Build(kind, vs.value)) else None
  }

  /** The values of the first i objects a container refers to. */
  ghost function UnfoldKids(g: Graph, kind: Kind, kids: seq<nat>, i: nat, n: nat): Option<seq<PValue>>
    requires i <= |kids|
    decreases n, 1, i
  {
    if i == 0 then Some([]) else
      Extend(kind, |kids|, i - 1, UnfoldKids(g, kind, kids, i - 1, n), UnfoldN(g, kids[i - 1], n))
  }

  function Extend(kind: Kind, cnt: nat, i: nat, vs: Option<seq<PValue>>, v: Option<PValue>): Option<seq<PValue>> {
    if vs.Some? && v.Some? && Admits(kind, cnt, i, v.value) then Some(vs.value + [v.value]) else None
  }

  /**
    What the object at o means: its value when its unfolding is finite and well
    formed, and nothing otherwise.
  */
  ghost function Meaning(g: Graph, o: nat): Option<PValue> {
    if n: nat :| UnfoldN(g, o, n).Some? then UnfoldN(g, o, n) else None
  }

  /** The meanings of the first i objects a container refers to. */
  ghost function KidMeanings(g: Graph, kind: Kind, kids: seq<nat>, i: nat): Option<seq<PValue>>
    requires i <= |kids|
  {
    if i == 0 then Some([]) else
      Extend(kind, |kids|, i - 1, KidMeanings(g, kind, kids, i - 1), Meaning(g, kids[i - 1]))
  }

  // ---------- depth does not matter once it is enough ----------

  lemma {:induction false} UnfoldMonotone(g: Graph, o: nat, n: nat, m: nat)
    requires n <= m && UnfoldN(g, o, n).Some?
    ensures UnfoldN(g, o, m) == UnfoldN(g, o, n)
    decreases n, 0, 0
  {
    if g(o).value.Container? {
      KidsMonotone(g, g(o).value.kind, g(o).value.kids, |g(o).value.kids|, n - 1, m - 1);
    }
  }

  lemma {:induction false} KidsMonotone(g: Graph, kind: Kind, kids: seq<nat>, i: nat, n: nat, m: nat)
    requires i <= |kids| && n <= m && UnfoldKids(g, kind, kids, i, n).Some?
    ensures UnfoldKids(g, kind, kids, i, m) == UnfoldKids(g, kind, kids, i, n)
    decreases n, 1, i
  {
    if i > 0 {
      KidsMonotone(g, kind, kids, i - 1, n, m);
      UnfoldMonotone(g, kids[i - 1], n, m);
    }
  }

  /** Any depth that suffices gives the meaning. */
  lemma MeaningAt(g: Graph, o: nat, n: nat)
    requires UnfoldN(g, o, n).Some?
    ensures Meaning(g, o) == UnfoldN(g, o, n)
  {
    var m: nat :| UnfoldN(g, o, m).Some? && Meaning(g, o) == UnfoldN(g, o, m);
    if m <= n {
      UnfoldMonotone(g, o, m, n);
    } else {
      UnfoldMonotone(g, o, n, m);
    }
  }

  lemma {:induction false} KidMeaningsAt(g: Graph, kind: Kind, kids: seq<nat>, i: nat, n: nat)
    requires i <= |kids| && UnfoldKids(g, kind, kids, i, n).Some?
    ensures KidMeanings(g, kind, kids, i) == UnfoldKids(g, kind, kids, i, n)
  {
    if i > 0 {
      KidMeaningsAt(g, kind, kids, i - 1, n);
      MeaningAt(g, kids[i - 1], n);
    }
  }

  lemma {:induction false} KidMeaningsDepth(g: Graph, kind: Kind, kids: seq<nat>, i: nat) returns (n: nat)
    requires i <= |kids| && KidMeanings(g, kind, kids, i).Some?
    ensures UnfoldKids(g, kind, kids, i, n) == KidMeanings(g, kind, kids, i)
  {
    if i == 0 {
      n := 0;
    } else {
      var a := KidMeaningsDepth(g, kind, kids, i - 1);
      var o := kids[i - 1];
      var b: nat :| UnfoldN(g, o, b).Some?;
      MeaningAt(g, o, b);
      n := if a <= b then b else a;
      KidsMonotone(g, kind, kids, i - 1, a, n);
      UnfoldMonotone(g, o, b, n);
    }
  }

  /** What an object says once the objects it refers to have their meanings. */
  ghost function MeaningOfShape(g: Graph, s: Option<Shape>): Option<PValue> {
    if s.None? then None
    else if s.value.Leaf? then Some(s.value.value)
    else Assemble(s.value.kind, KidMeanings(g, s.value.kind, s.value.kids, |s.value.kids|))
  }

  /** The meaning of an object in terms of the meanings of the objects it refers to. */
  lemma MeaningOfObject(g: Graph, o: nat)
    ensures Meaning(g, o) == MeaningOfShape(g, g(o))
  {
    if g(o).Some? && g(o).value.Leaf? {
      MeaningAt(g, o, 1);
    } else if g(o).Some? {
      var Container(kind, kids) := g(o).value;
      if n: nat :| UnfoldN(g, o, n).Some? {
        MeaningAt(g, o, n);
        KidMeaningsAt(g, kind, kids, |kids|, n - 1);
      } else if KidMeanings(g, kind, kids, |kids|).Some? {
        var n := KidMeaningsDepth(g, kind, kids, |kids|);
        assert UnfoldN(g, o, n + 1).Some?;
        assert false;
      }
    }
  }

  // ---------- the objects of a container, one by one ----------

  ghost predicate KidIsFine(g: Graph, kind: Kind, kids: seq<nat>, j: nat)
    requires j < |kids|
  {
    Meaning(g, kids[j]).Some? && Admits(kind, |kids|, j, Meaning(g, kids[j]).value)
  }

  lemma {:induction false} KidMeaningsEach(g: Graph, kind: Kind, kids: seq<nat>, i: nat)
    requires i <= |kids|
    ensures KidMeanings(g, kind, kids, i).Some? <==> forall j :: 0 <= j < i ==> KidIsFine(g, kind, kids, j)
    ensures KidMeanings(g, kind, kids, i).Some? ==>
              && |KidMeanings(g, kind, kids, i).value| == i
              && forall j :: 0 <= j < i ==> Meaning(g, kids[j]) == Some(KidMeanings(g, kind, kids, i).value[j])
  {
    if i > 0 {
      KidMeaningsEach(g, kind, kids, i - 1);
      var fine := KidIsFine(g, kind, kids, i - 1);
      assert KidMeanings(g, kind, kids, i).Some? <==> KidMeanings(g, kind, kids, i - 1).Some? && fine;
    }
  }

  /** One object without a proper meaning leaves the container without one. */
  lemma {:induction false} KidMeaningsFail(g: Graph, kind: Kind, kids: seq<nat>, i: nat, k: nat)
    requires i <= k <= |kids| && KidMeanings(g, kind, kids, i).None?
    ensures KidMeanings(g, kind, kids, k).None?
  {
    if i < k {
      KidMeaningsFail(g, kind, kids, i, k - 1);
    }
  }

  // ---------- cycles ----------

  /** Object a refers to object b. */
  ghost predicate RefersTo(g: Graph, a: nat, b: nat) {
    g(a).Some? && g(a).value.Container? && b in g(a).value.kids
  }

  /** The trail leads, reference by reference, to o. */
  ghost predicate LeadsTo(g: Graph, trail: seq<nat>, o: nat) {
    forall k :: 0 <= k < |trail| ==> Step(g, trail, o, k)
  }

  ghost predicate Step(g: Graph, trail: seq<nat>, o: nat, k: nat)
    requires k < |trail|
  {
    RefersTo(g, trail[k], if k + 1 < |trail| then trail[k + 1] else o)
  }

  lemma {:induction false} KidUnfolds(g: Graph, kind: Kind, kids: seq<nat>, i: nat, n: nat, j: nat)
    requires j < i <= |kids| && UnfoldKids(g, kind, kids, i, n).Some?
    ensures UnfoldN(g, kids[j], n).Some?
  {
    if j < i - 1 {
      KidUnfolds(g, kind, kids, i - 1, n, j);
    }
  }

  lemma RefUsesDepth(g: Graph, a: nat, b: nat, n: nat)
    requires RefersTo(g, a, b) && UnfoldN(g, a, n).Some?
    ensures n > 1 && UnfoldN(g, b, n - 1).Some?
  {
    var kids := g(a).value.kids;
    var j: nat :| j < |kids| && b == kids[j];
    KidUnfolds(g, g(a).value.kind, kids, |kids|, n - 1, j);
  }

  /** Following the trail from one of its objects to o uses up depth. */
  lemma {:induction false} TrailUsesDepth(g: Graph, trail: seq<nat>, o: nat, i: nat, n: nat)
    requires LeadsTo(g, trail, o) && i < |trail| && UnfoldN(g, trail[i], n).Some?
    ensures n > |trail| - i && UnfoldN(g, o, n - (|trail| - i)).Some?
    decreases |trail| - i
  {
    assert Step(g, trail, o, i);
    RefUsesDepth(g, trail[i], if i + 1 < |trail| then trail[i + 1] else o, n);
    if i + 1 < |trail| {
      TrailUsesDepth(g, trail, o, i + 1, n - 1);
    }
  }

  lemma {:induction false} CycleNeverUnfolds(g: Graph, trail: seq<nat>, o: nat, n: nat)
    requires LeadsTo(g, trail, o) && o in trail
    ensures UnfoldN(g, o, n).None?
  {
    if UnfoldN(g, o, n).Some? {
      var i: nat :| i < |trail| && trail[i] == o;
      TrailUsesDepth(g, trail, o, i, n);
      CycleNeverUnfolds(g, trail, o, n - (|trail| - i));
      assert false;
    }
  }

  /** An object that is reached from itself has no finite unfolding. */
  lemma CycleHasNoMeaning(g: Graph, trail: seq<nat>, o: nat)
    requires LeadsTo(g, trail, o) && o in trail
    ensures Meaning(g, o).None?
  {
    forall n: nat
      ensures UnfoldN(g, o, n).None?
    {
      CycleNeverUnfolds(g, trail, o, n);
    }
  }
}
