/**
  Property lists as the writer is handed them: objects in memory that point to
  one another, so that the same object may be reached in several ways.
*/
module PlistHeap {
  import opened PlistBytes
  import opened PlistGraph

  type Ref = nat

  datatype Node =
    | Leaf(atom: Atom)
    | Arr(elems: seq<Ref>)
    | Dic(keys: seq<Ref>, vals: seq<Ref>)

  /** Objects by address. A finite plist is acyclic, so addresses can be numbered children first. */
  type Heap = h: seq<Node> | ValidHeap(h) witness []

  function Children(n: Node): seq<Ref> {
    match n
    case Leaf(_) => []
    case Arr(es) => es
    case Dic(ks, vs) => ks + vs
  }

  predicate ValidAtom(a: Atom) {
    match a
    case Real(s) => |s| == 4 || |s| == 8
    case Date(s) => |s| == 8
    case Uid(v) => 0 <= v < 0x1_0000_0000
    case _ => true
  }

  /** Values are in range, references lead down, and each list of pointers fits in the address space. */
  ghost predicate ValidHeap(h: seq<Node>) {
    forall r :: 0 <= r < |h| ==>
      && (h[r].Leaf? ==> ValidAtom(h[r].atom))
      && (h[r].Dic? ==> |h[r].keys| == |h[r].vals|)
      && Below(Children(h[r]), r) && 8 * |Children(h[r])| < SPAN64
  }

  predicate Below(refs: seq<Ref>, r: Ref) {
    forall i :: 0 <= i < |refs| ==> refs[i] < r
  }

  // ---------- uniquing ----------

  /** Which uniquing set an atom belongs to; booleans and UIDs are not uniqued. */
  function UniquingSet(a: Atom): int {
    match a
    case Str(_) => 0
    case Int(_) => 1
    case Int128(_, _) => 1
    case Real(_) => 1
    case Date(_) => 2
    case Data(_) => 3
    case Bool(_) => -1
    case Uid(_) => -1
  }

  predicate Uniqued(h: Heap, r: Ref) {
    r < |h| && h[r].Leaf? && UniquingSet(h[r].atom) != -1
  }

  /** The library's equality on atoms; numbers are only equal when both or neither are floating point. */
  type AtomEq = (Atom, Atom) -> bool

  predicate SameAtom(eq: AtomEq, a: Atom, b: Atom) {
    UniquingSet(a) == UniquingSet(b) != -1 && a.Real? == b.Real? && eq(a, b)
  }

  /** An object that r is unified with: r itself, or an equal scalar. */
  predicate Unifies(h: Heap, eq: AtomEq, u: Ref, r: Ref) {
    u == r || (Uniqued(h, u) && Uniqued(h, r) && SameAtom(eq, h[u].atom, h[r].atom))
  }

  /** The first member of the uniquing sets that r is unified with. */
  function Lookup(h: Heap, eq: AtomEq, members: seq<Ref>, r: Ref): (u: Option<Ref>)
    ensures u.Some? ==> u.value in members && Unifies(h, eq, u.value, r)
    ensures u.None? ==> forall m :: m in members ==> !Unifies(h, eq, m, r)
  {
    if members == [] then None
    else if Unifies(h, eq, members[0], r) then Some(members[0])
    else Lookup(h, eq, members[1..], r)
  }

  // ---------- flattening ----------

  /** The object list, the index table, and the uniquing sets taken together. */
  datatype Flat = Flat(list: seq<Ref>, table: map<Ref, nat>, members: seq<Ref>)

  /** The index of r leads to an entry that stands for it. */
  ghost predicate Stands(h: Heap, eq: AtomEq, f: Flat, r: Ref)
    requires r in f.table
  {
    r < |h| && f.table[r] < |f.list| && Unifies(h, eq, f.list[f.table[r]], r)
  }

  /** Entry i is an object with an index, and a member if it is a scalar of the uniquing sets. */
  ghost predicate Listed(h: Heap, f: Flat, i: nat)
    requires i < |f.list|
  {
    f.list[i] < |h| && f.list[i] in f.table && (Uniqued(h, f.list[i]) ==> f.list[i] in f.members)
  }

  /** Entries i and j are not equal scalars. */
  ghost predicate Apart(h: Heap, eq: AtomEq, list: seq<Ref>, i: nat, j: nat)
    requires i < |list| && j < |list|
  {
    Uniqued(h, list[i]) && Uniqued(h, list[j]) ==> !Unifies(h, eq, list[i], list[j])
  }

  /** A member is a listed scalar, under its own index. */
  ghost predicate Owns(h: Heap, f: Flat, u: Ref) {
    Uniqued(h, u) && u in f.table && f.table[u] < |f.list| && f.list[f.table[u]] == u
  }

  /** Indices lead to what stands for their objects, no scalar is listed twice, and members are listed scalars. */
  ghost predicate FlatOK(h: Heap, eq: AtomEq, f: Flat) {
    && (forall i {:trigger Listed(h, f, i)} :: 0 <= i < |f.list| ==> Listed(h, f, i))
    && (forall r {:trigger Stands(h, eq, f, r)} :: r in f.table ==> Stands(h, eq, f, r))
    && (forall i, j {:trigger Apart(h, eq, f.list, i, j)} :: 0 <= i < j < |f.list| ==> Apart(h, eq, f.list, i, j))
    && (forall u {:trigger Owns(h, f, u)} :: u in f.members ==> Owns(h, f, u))
  }

  /** Everything an entry refers to is indexed. */
  ghost predicate EntryClosed(h: Heap, f: Flat, i: nat)
    requires i < |f.list|
  {
    f.list[i] < |h| && RefsIndexed(f.table, Children(h[f.list[i]]))
  }

  ghost predicate RefsIndexed(table: map<Ref, nat>, refs: seq<Ref>) {
    forall i :: 0 <= i < |refs| ==> refs[i] in table
  }

  ghost predicate Closed(h: Heap, f: Flat, from: nat) {
    forall i :: from <= i < |f.list| ==> EntryClosed(h, f, i)
  }

  /** Entries and indices, once given, stay. */
  ghost predicate Grows(f: Flat, f': Flat) {
    f.list <= f'.list && forall q {:trigger Kept(f, f', q)} :: Kept(f, f', q)
  }

  ghost predicate Kept(f: Flat, f': Flat, q: Ref) {
    q in f.table ==> q in f'.table && f'.table[q] == f.table[q]
  }

  function Appended(h: Heap, f: Flat, r: Ref): Flat {
    Flat(f.list + [r],
         if r in f.table then f.table else f.table[r := |f.list|],
         if Uniqued(h, r) then f.members + [r] else f.members)
  }

  /** Appending an object that no member is equal to keeps all that. */
  lemma AppendKeeps(h: Heap, eq: AtomEq, f: Flat, r: Ref)
    requires FlatOK(h, eq, f) && r < |h|
    requires Uniqued(h, r) ==> r !in f.table && forall u :: u in f.members ==> !Unifies(h, eq, u, r)
    ensures FlatOK(h, eq, Appended(h, f, r)) && Grows(f, Appended(h, f, r))
  {
    var f' := Appended(h, f, r);
    forall i | 0 <= i < |f'.list| ensures Listed(h, f', i) {
      assert i < |f.list| ==> Listed(h, f, i);
    }
    forall q | q in f'.table ensures Stands(h, eq, f', q) {
      assert q in f.table ==> Stands(h, eq, f, q);
    }
    forall i, j | 0 <= i < j < |f'.list| ensures Apart(h, eq, f'.list, i, j) {
      AppendApart(h, eq, f, r, i, j);
    }
    forall u | u in f'.members ensures Owns(h, f', u) {
      assert u in f.members ==> Owns(h, f, u);
    }
  }

  lemma AppendApart(h: Heap, eq: AtomEq, f: Flat, r: Ref, i: nat, j: nat)
    requires FlatOK(h, eq, f) && i < j <= |f.list|
    requires Uniqued(h, r) ==> forall u :: u in f.members ==> !Unifies(h, eq, u, r)
    ensures Apart(h, eq, f.list + [r], i, j)
  {
    assert Listed(h, f, i) && (j < |f.list| ==> Apart(h, eq, f.list, i, j));
  }

  /** A scalar equal to a listed one is given that one's index. */
  lemma ShareKeeps(h: Heap, eq: AtomEq, f: Flat, r: Ref, u: Ref)
    requires FlatOK(h, eq, f) && u in f.members && Unifies(h, eq, u, r) && r < |h| && r !in f.table
    ensures u in f.table && FlatOK(h, eq, f.(table := f.table[r := f.table[u]]))
  {
    assert Owns(h, f, u);
    var f' := f.(table := f.table[r := f.table[u]]);
    forall i | 0 <= i < |f'.list| ensures Listed(h, f', i) {
      assert Listed(h, f, i);
    }
    forall q | q in f'.table ensures Stands(h, eq, f', q) {
      assert q != r ==> Stands(h, eq, f, q);
    }
    forall i, j | 0 <= i < j < |f'.list| ensures Apart(h, eq, f'.list, i, j) {
      assert Apart(h, eq, f.list, i, j);
    }
    forall v | v in f'.members ensures Owns(h, f', v) {
      assert Owns(h, f, v);
    }
  }

  lemma EntryStaysClosed(h: Heap, f: Flat, f': Flat, i: nat)
    requires Grows(f, f') && i < |f.list| && EntryClosed(h, f, i)
    ensures EntryClosed(h, f', i)
  {
    var refs := Children(h[f.list[i]]);
    forall j | 0 <= j < |refs| ensures refs[j] in f'.table {
      assert Kept(f, f', refs[j]);
    }
  }

  /** A scalar given the index of the equal one u. */
  function Shared(f: Flat, r: Ref, u: Ref): Flat {
    if u == r || r in f.table then f
    else f.(table := f.table[r := if u in f.table then f.table[u] else 0])
  }

  /** A step for each of some objects, in order. */
  function Fold(step: (Flat, Ref) -> Flat, f: Flat, refs: seq<Ref>): Flat {
    if refs == [] then f else step(Fold(step, f, refs[..|refs| - 1]), refs[|refs| - 1])
  }

  /** What flattening the object at r adds to a state, in the order in which objects are met. */
  function Flattened(h: Heap, eq: AtomEq, f: Flat, r: Ref): Flat
    requires r < |h|
    decreases r, 1
  {
    var unique := if Uniqued(h, r) then Lookup(h, eq, f.members, r) else None;
    if unique.Some? then Shared(f, r, unique.value)
    else Fold(StepBelow(h, eq, r), Appended(h, f, r), Children(h[r]))
  }

  /** Flattening an object that r can refer to. */
  function StepBelow(h: Heap, eq: AtomEq, r: Ref): (Flat, Ref) -> Flat
    requires r < |h|
    decreases r, 0
  {
    (f: Flat, c: Ref) => if c < r then Flattened(h, eq, f, c) else f
  }

  lemma FoldPair(step: (Flat, Ref) -> Flat, f: Flat, a: Ref, b: Ref)
    ensures Fold(step, f, [a, b]) == step(step(f, a), b)
  {
    assert [a, b][..1] == [a] && [a][..0] == [];
    assert Fold(step, f, [a]) == step(Fold(step, f, []), a) == step(f, a);
  }

  // What a step keeps, a series of steps keeps.

  ghost predicate StepGrows(step: (Flat, Ref) -> Flat) {
    forall f: Flat, c: Ref {:trigger step(f, c)} :: Grows(f, step(f, c))
  }

  lemma {:induction false} FoldGrows(step: (Flat, Ref) -> Flat, f: Flat, refs: seq<Ref>)
    requires StepGrows(step)
    ensures Grows(f, Fold(step, f, refs))
  {
    if refs != [] {
      var before := refs[..|refs| - 1];
      FoldGrows(step, f, before);
      GrowsOn(f, Fold(step, f, before), Fold(step, f, refs));
    }
  }

  lemma GrowsOn(f: Flat, f1: Flat, f2: Flat)
    requires Grows(f, f1) && Grows(f1, f2)
    ensures Grows(f, f2)
  {
    forall q ensures Kept(f, f2, q) {
      assert Kept(f, f1, q) && Kept(f1, f2, q);
    }
  }

  ghost predicate StepFlat(step: (Flat, Ref) -> Flat, h: Heap, eq: AtomEq) {
    forall f: Flat, c: Ref {:trigger step(f, c)} :: FlatOK(h, eq, f) ==> FlatOK(h, eq, step(f, c))
  }

  lemma {:induction false} FoldFlat(step: (Flat, Ref) -> Flat, h: Heap, eq: AtomEq, f: Flat, refs: seq<Ref>)
    requires StepFlat(step, h, eq) && FlatOK(h, eq, f)
    ensures FlatOK(h, eq, Fold(step, f, refs))
  {
    if refs != [] {
      FoldFlat(step, h, eq, f, refs[..|refs| - 1]);
    }
  }

  /** A step gives an object below r an index. */
  ghost predicate StepIndexes(step: (Flat, Ref) -> Flat, h: Heap, eq: AtomEq, r: Ref) {
    forall f: Flat, c: Ref {:trigger step(f, c)} :: FlatOK(h, eq, f) && c < r ==> c in step(f, c).table
  }

  lemma {:induction false} FoldIndexes(step: (Flat, Ref) -> Flat, h: Heap, eq: AtomEq, r: Ref, f: Flat,
                                       refs: seq<Ref>, j: nat)
    requires StepGrows(step) && StepFlat(step, h, eq) && StepIndexes(step, h, eq, r)
    requires FlatOK(h, eq, f) && j < |refs| && refs[j] < r
    ensures refs[j] in Fold(step, f, refs).table
  {
    var n := |refs| - 1;
    FoldFlat(step, h, eq, f, refs[..n]);
    if j < n {
      FoldIndexes(step, h, eq, r, f, refs[..n], j);
      assert Kept(Fold(step, f, refs[..n]), Fold(step, f, refs), refs[j]);
    }
  }

  /** All that the entries a step adds refer to is indexed. */
  ghost predicate StepCloses(step: (Flat, Ref) -> Flat, h: Heap, eq: AtomEq) {
    forall f: Flat, c: Ref {:trigger step(f, c)} :: FlatOK(h, eq, f) ==> Closed(h, step(f, c), |f.list|)
  }

  lemma {:induction false} FoldCloses(step: (Flat, Ref) -> Flat, h: Heap, eq: AtomEq, f: Flat, refs: seq<Ref>)
    requires StepGrows(step) && StepFlat(step, h, eq) && StepCloses(step, h, eq) && FlatOK(h, eq, f)
    ensures Closed(h, Fold(step, f, refs), |f.list|)
  {
    if refs != [] {
      var before := refs[..|refs| - 1];
      FoldCloses(step, h, eq, f, before);
      FoldFlat(step, h, eq, f, before);
      ClosedOn(h, Fold(step, f, before), Fold(step, f, refs), |f.list|);
    }
  }

  lemma ClosedOn(h: Heap, f: Flat, f': Flat, from: nat)
    requires Grows(f, f') && Closed(h, f, from) && Closed(h, f', |f.list|)
    ensures Closed(h, f', from)
  {
    forall i | from <= i < |f'.list| ensures EntryClosed(h, f', i) {
      if i < |f.list| {
        assert EntryClosed(h, f, i);
        EntryStaysClosed(h, f, f', i);
      }
    }
  }

  // ---------- what flattening keeps ----------

  /** What was listed or indexed stays. */
  lemma {:induction false} FlattenedGrows(h: Heap, eq: AtomEq, f: Flat, r: Ref)
    requires r < |h|
    ensures Grows(f, Flattened(h, eq, f, r))
    decreases r, 1
  {
    if !(Uniqued(h, r) && Lookup(h, eq, f.members, r).Some?) {
      StepBelowGrows(h, eq, r);
      FoldGrows(StepBelow(h, eq, r), Appended(h, f, r), Children(h[r]));
      GrowsOn(f, Appended(h, f, r), Flattened(h, eq, f, r));
    }
  }

  lemma {:induction false} StepBelowGrows(h: Heap, eq: AtomEq, r: Ref)
    requires r < |h|
    ensures StepGrows(StepBelow(h, eq, r))
    decreases r, 0
  {
    forall f: Flat, c: Ref ensures Grows(f, StepBelow(h, eq, r)(f, c)) {
      if c < r {
        FlattenedGrows(h, eq, f, c);
      }
    }
  }

  /** Indices and uniqueness are kept, and the object has an index. */
  lemma {:induction false} FlattenedFlat(h: Heap, eq: AtomEq, f: Flat, r: Ref)
    requires r < |h| && FlatOK(h, eq, f)
    ensures FlatOK(h, eq, Flattened(h, eq, f, r)) && r in Flattened(h, eq, f, r).table
    decreases r, 1
  {
    var unique := if Uniqued(h, r) then Lookup(h, eq, f.members, r) else None;
    if unique.Some? {
      SharedOK(h, eq, f, r, unique.value);
    } else {
      AppendsUnlisted(h, eq, f, r);
      StepBelowFlat(h, eq, r);
      FoldFlat(StepBelow(h, eq, r), h, eq, Appended(h, f, r), Children(h[r]));
      StepBelowGrows(h, eq, r);
      FoldGrows(StepBelow(h, eq, r), Appended(h, f, r), Children(h[r]));
      assert Kept(Appended(h, f, r), Flattened(h, eq, f, r), r);
    }
  }

  lemma {:induction false} StepBelowFlat(h: Heap, eq: AtomEq, r: Ref)
    requires r < |h|
    ensures StepFlat(StepBelow(h, eq, r), h, eq) && StepIndexes(StepBelow(h, eq, r), h, eq, r)
    decreases r, 0
  {
    forall f: Flat, c: Ref | FlatOK(h, eq, f)
      ensures FlatOK(h, eq, StepBelow(h, eq, r)(f, c)) && (c < r ==> c in StepBelow(h, eq, r)(f, c).table)
    {
      if c < r {
        FlattenedFlat(h, eq, f, c);
      }
    }
  }

  lemma {:induction false} FlattenedCloses(h: Heap, eq: AtomEq, f: Flat, r: Ref)
    requires r < |h| && FlatOK(h, eq, f)
    ensures Closed(h, Flattened(h, eq, f, r), |f.list|)
    decreases r, 1
  {
    if !(Uniqued(h, r) && Lookup(h, eq, f.members, r).Some?) {
      var f0 := Appended(h, f, r);
      AppendsUnlisted(h, eq, f, r);
      StepBelowFlat(h, eq, r);
      StepBelowGrows(h, eq, r);
      StepBelowCloses(h, eq, r);
      FoldCloses(StepBelow(h, eq, r), h, eq, f0, Children(h[r]));
      FirstCloses(h, eq, f, r);
    }
  }

  lemma FirstCloses(h: Heap, eq: AtomEq, f: Flat, r: Ref)
    requires r < |h| && FlatOK(h, eq, Appended(h, f, r))
    requires var step := StepBelow(h, eq, r); StepGrows(step) && StepFlat(step, h, eq) && StepIndexes(step, h, eq, r)
    requires Closed(h, Fold(StepBelow(h, eq, r), Appended(h, f, r), Children(h[r])), |f.list| + 1)
    ensures Closed(h, Fold(StepBelow(h, eq, r), Appended(h, f, r), Children(h[r])), |f.list|)
  {
    var step, f0, refs := StepBelow(h, eq, r), Appended(h, f, r), Children(h[r]);
    var f' := Fold(step, f0, refs);
    FoldGrows(step, f0, refs);
    assert f'.list[|f.list|] == f0.list[|f.list|];
    forall j | 0 <= j < |refs| ensures refs[j] in f'.table {
      FoldIndexes(step, h, eq, r, f0, refs, j);
    }
    assert EntryClosed(h, f', |f.list|);
  }

  lemma {:induction false} StepBelowCloses(h: Heap, eq: AtomEq, r: Ref)
    requires r < |h|
    ensures StepCloses(StepBelow(h, eq, r), h, eq)
    decreases r, 0
  {
    forall f: Flat, c: Ref | FlatOK(h, eq, f) ensures Closed(h, StepBelow(h, eq, r)(f, c), |f.list|) {
      if c < r {
        FlattenedCloses(h, eq, f, c);
      }
    }
  }

  /** What is added starts with r, and nothing is added just for a scalar equal to a member. */
  lemma FlattenedFirst(h: Heap, eq: AtomEq, f: Flat, r: Ref)
    requires r < |h|
    ensures var f' := Flattened(h, eq, f, r);
      && (|f.list| < |f'.list| ==> f'.list[|f.list|] == r)
      && (|f.list| == |f'.list| <==> Uniqued(h, r) && exists u :: u in f.members && Unifies(h, eq, u, r))
  {
    if !(Uniqued(h, r) && Lookup(h, eq, f.members, r).Some?) {
      StepBelowGrows(h, eq, r);
      FoldGrows(StepBelow(h, eq, r), Appended(h, f, r), Children(h[r]));
    }
  }

  /** Flattening keeps indices and uniqueness, indexes r, and lists r first of all it adds, if it adds anything. */
  lemma FlattenedOK(h: Heap, eq: AtomEq, f: Flat, r: Ref)
    requires r < |h| && FlatOK(h, eq, f)
    ensures var f' := Flattened(h, eq, f, r);
      && FlatOK(h, eq, f') && Grows(f, f') && r in f'.table && Closed(h, f', |f.list|)
      && (|f.list| < |f'.list| ==> f'.list[|f.list|] == r)
      && (|f.list| == |f'.list| <==> Uniqued(h, r) && exists u :: u in f.members && Unifies(h, eq, u, r))
  {
    FlattenedFlat(h, eq, f, r);
    FlattenedCloses(h, eq, f, r);
    FlattenedGrows(h, eq, f, r);
    FlattenedFirst(h, eq, f, r);
  }

  lemma SharedOK(h: Heap, eq: AtomEq, f: Flat, r: Ref, u: Ref)
    requires FlatOK(h, eq, f) && r < |h| && Uniqued(h, r) && u in f.members && Unifies(h, eq, u, r)
    ensures var f' := Shared(f, r, u);
      FlatOK(h, eq, f') && Grows(f, f') && r in f'.table && f'.list == f.list
  {
    assert Owns(h, f, u);
    if u != r && r !in f.table {
      ShareKeeps(h, eq, f, r, u);
    }
  }

  /** An object unified with no member may be appended. */
  lemma AppendsUnlisted(h: Heap, eq: AtomEq, f: Flat, r: Ref)
    requires FlatOK(h, eq, f) && r < |h| && (Uniqued(h, r) ==> Lookup(h, eq, f.members, r).None?)
    ensures FlatOK(h, eq, Appended(h, f, r)) && Grows(f, Appended(h, f, r)) && r in Appended(h, f, r).table
  {
    if Uniqued(h, r) {
      assert r in f.table ==> Stands(h, eq, f, r) && Listed(h, f, f.table[r]);
    }
    AppendKeeps(h, eq, f, r);
  }

  // ---------- only what is reached is listed ----------

  ghost predicate Reaches(h: Heap, r: Ref, u: Ref)
    requires r < |h|
    decreases r
  {
    u == r || exists i :: 0 <= i < |Children(h[r])| && Reaches(h, Children(h[r])[i], u)
  }

  /** A step adds only what its object reaches. */
  ghost predicate StepReaches(step: (Flat, Ref) -> Flat, h: Heap, r: Ref)
    requires r < |h|
  {
    forall f: Flat, c: Ref, i {:trigger step(f, c).list[i]} ::
      c < r && |f.list| <= i < |step(f, c).list| ==> Reaches(h, c, step(f, c).list[i])
  }

  lemma {:induction false} FoldReaches(step: (Flat, Ref) -> Flat, h: Heap, r: Ref, f: Flat, refs: seq<Ref>, i: nat)
      returns (j: nat)
    requires StepGrows(step) && r < |h| && StepReaches(step, h, r) && Below(refs, r)
    requires |f.list| <= i < |Fold(step, f, refs).list|
    ensures j < |refs| && Reaches(h, refs[j], Fold(step, f, refs).list[i])
  {
    var n := |refs| - 1;
    var f1 := Fold(step, f, refs[..n]);
    if i < |f1.list| {
      j := FoldReaches(step, h, r, f, refs[..n], i);
    } else {
      j := n;
    }
  }

  /** Only what r reaches is listed for it. */
  lemma {:induction false} FlattenedReaches(h: Heap, eq: AtomEq, f: Flat, r: Ref, i: nat)
    requires r < |h| && |f.list| <= i < |Flattened(h, eq, f, r).list|
    ensures Reaches(h, r, Flattened(h, eq, f, r).list[i])
    decreases r, 1
  {
    if !(Uniqued(h, r) && Lookup(h, eq, f.members, r).Some?) {
      var f0, refs := Appended(h, f, r), Children(h[r]);
      StepBelowGrows(h, eq, r);
      if i == |f.list| {
        FlattenedFirst(h, eq, f, r);
      } else {
        StepBelowReaches(h, eq, r);
        var j := FoldReaches(StepBelow(h, eq, r), h, r, f0, refs, i);
      }
    }
  }

  lemma {:induction false} StepBelowReaches(h: Heap, eq: AtomEq, r: Ref)
    requires r < |h|
    ensures StepReaches(StepBelow(h, eq, r), h, r)
    decreases r, 0
  {
    forall f: Flat, c: Ref, i | c < r && |f.list| <= i < |StepBelow(h, eq, r)(f, c).list|
      ensures Reaches(h, c, StepBelow(h, eq, r)(f, c).list[i])
    {
      FlattenedReaches(h, eq, f, c, i);
    }
  }

  /** The list, the indices and the members that flattening a property list ends with. */
  function Flattening(h: Heap, eq: AtomEq, root: Ref): Flat
    requires root < |h|
  {
    Flattened(h, eq, Flat([], map[], []), root)
  }

  /** The root is object 0; everything it reaches is indexed, and nothing else is listed. */
  lemma FlatteningOK(h: Heap, eq: AtomEq, root: Ref)
    requires root < |h|
    ensures var f := Flattening(h, eq, root);
      && FlatOK(h, eq, f) && Closed(h, f, 0) && root in f.table && f.list != [] && f.list[0] == root
      && forall i :: 0 <= i < |f.list| ==> Reaches(h, root, f.list[i])
  {
    var none := Flat([], map[], []);
    FlattenedOK(h, eq, none, root);
    forall i | 0 <= i < |Flattening(h, eq, root).list| ensures Reaches(h, root, Flattening(h, eq, root).list[i]) {
      FlattenedReaches(h, eq, none, root, i);
    }
  }

  class Flattener {
    const h: Heap
    const eq: AtomEq
    var objlist: seq<Ref>
    var objtable: map<Ref, nat>
    var members: seq<Ref>

    constructor (h: Heap, eq: AtomEq)
      ensures this.h == h && this.eq == eq && State() == Flat([], map[], []) && FlatOK(h, eq, State())
    {
      this.h, this.eq := h, eq;
      objlist, objtable, members := [], map[], [];
    }

    ghost function State(): Flat
      reads this
    {
      Flat(objlist, objtable, members)
    }

    method Append(r: Ref)
      modifies this
      ensures State() == Appended(h, old(State()), r)
    {
      if Uniqued(h, r) {
        members := members + [r];
      }
      if r !in objtable {
        objtable := objtable[r := |objlist|];
      }
      objlist := objlist + [r];
    }

    /** Gives a scalar the index of an equal one, if there is one. */
    method Share(r: Ref) returns (done: bool)
      modifies this`objtable
      ensures done <==> Lookup(h, eq, members, r).Some?
      ensures State() == if done then Shared(old(State()), r, Lookup(h, eq, members, r).value) else old(State())
    {
      var unique := Lookup(h, eq, members, r);
      if unique.None? {
        return false;
      }
      if unique.value != r && r !in objtable {
        objtable := objtable[r := if unique.value in objtable then objtable[unique.value] else 0];
      }
      return true;
    }

    /**
      Flattens the object at r: a scalar equal to one already listed shares its
      index; anything else is appended, and then the objects it refers to.
    */
    method Flatten(r: Ref)
      requires FlatOK(h, eq, State()) && r < |h|
      modifies this
      ensures State() == Flattened(h, eq, old(State()), r)
      ensures FlatOK(h, eq, State()) && Grows(old(State()), State())
      ensures r in objtable && Closed(h, State(), |old(objlist)|)
      ensures |old(objlist)| < |objlist| ==> objlist[|old(objlist)|] == r
      ensures |old(objlist)| == |objlist| <==>
                Uniqued(h, r) && exists u :: u in old(members) && Unifies(h, eq, u, r)
    {
      FlattenedOK(h, eq, State(), r);
      FlattenObject(r);
    }

    method FlattenObject(r: Ref)
      requires r < |h|
      modifies this
      ensures State() == Flattened(h, eq, old(State()), r)
      decreases r, 1
    {
      if Uniqued(h, r) {
        var done := Share(r);
        if done {
          return;
        }
      }
      Append(r);
      FlattenAll(r);
    }

    /** Flattens everything the object just appended refers to. */
    method FlattenAll(r: Ref)
      requires r < |h|
      modifies this
      ensures State() == Fold(StepBelow(h, eq, r), old(State()), Children(h[r]))
      decreases r, 0
    {
      var list := Children(h[r]);
      ghost var step := StepBelow(h, eq, r);
      for i := 0 to |list|
        invariant State() == Fold(step, old(State()), list[..i])
      {
        assert list[..i + 1][..i] == list[..i];
        FlattenObject(list[i]);
      }
      assert list[..|list|] == list;
    }
  }
}
