/**
  The bucket table of a bag: open addressing with linear probing over one array
  of key words and one array of occurrence counts. A slot is empty when it holds
  the marker, deleted when it holds the complement of the marker, live otherwise.
*/
module BagTable {

  const WORD_SPAN: int := 0x1_0000_0000_0000_0000

  /** `any_t`: a 64-bit machine word. */
  type Word = x: int | 0 <= x < WORD_SPAN

  /** The word with every bit inverted. */
  function Complement(w: Word): Word {
    WORD_SPAN - 1 - w
  }

  /**
    The key callbacks. The equality callback is an equivalence, given by a
    representative of each class. `hash` stands for the client's hash followed
    by the scramble, whose bits are of no consequence here.
  */
  datatype CallBacks = CallBacks(hash: Word -> nat, rep: Word -> Word, retain: Word -> Word) {

    predicate Equal(a: Word, b: Word) {
      rep(a) == rep(b)
    }

    /** `hash` respects equality and `retain` returns an equal key. */
    ghost predicate Lawful() {
      && (forall a {:trigger rep(a)} :: hash(rep(a)) == hash(a))
      && (forall a {:trigger retain(a)} :: Equal(retain(a), a))
    }

    function Home(key: Word, n: nat): (h: nat)
      requires n > 0
      ensures h < n
    {
      hash(key) % n
    }
  }

  datatype Table = Table(marker: Word, keys: seq<Word>, vals: seq<nat>)

  predicate IsMagic(marker: Word, key: Word) {
    key == marker || key == Complement(marker)
  }

  predicate Live(t: Table, i: int) {
    0 <= i < |t.keys| && !IsMagic(t.marker, t.keys[i])
  }

  /** Slot i holds a live key equal to k. */
  predicate Holds(t: Table, cb: CallBacks, k: Word, i: int) {
    Live(t, i) && cb.Equal(t.keys[i], k)
  }

  ghost predicate Found(t: Table, cb: CallBacks, k: Word) {
    exists i :: Holds(t, cb, k, i)
  }

  /** Walking up cyclically from h, slot j is met before slot i. */
  predicate Between(h: int, j: int, i: int) {
    if h <= i then h <= j < i else h <= j || j < i
  }

  /** No empty slot lies on the way from a live key's home to its slot. */
  ghost predicate Chained(t: Table, cb: CallBacks) {
    forall i, j ::
      Live(t, i) && 0 <= j < |t.keys| && Between(cb.Home(t.keys[i], |t.keys|), j, i) ==> t.keys[j] != t.marker
  }

  ghost predicate Distinct(t: Table, cb: CallBacks) {
    forall i, j :: Live(t, i) && Live(t, j) && i != j ==> !cb.Equal(t.keys[i], t.keys[j])
  }

  /** Exactly the live slots have a positive count. */
  ghost predicate Counted(t: Table) {
    && |t.vals| == |t.keys|
    && forall i :: 0 <= i < |t.keys| ==> (Live(t, i) <==> t.vals[i] > 0)
  }

  ghost predicate WellFormed(t: Table, cb: CallBacks) {
    Counted(t) && Chained(t, cb) && Distinct(t, cb)
  }

  /** The abstract value: the multiset of the keys' representatives. */
  ghost function Contents(keys: seq<Word>, vals: seq<nat>, cb: CallBacks): multiset<Word>
    requires |vals| == |keys|
  {
    if keys == [] then multiset{} else
      var n := |keys| - 1;
      var m := Contents(keys[..n], vals[..n], cb);
      m[cb.rep(keys[n]) := m[cb.rep(keys[n])] + vals[n]]
  }

  function Occurrences(s: seq<Word>, x: Word): (n: nat)
    ensures n <= |s|
  {
    if s == [] then 0 else Occurrences(s[..|s| - 1], x) + (if s[|s| - 1] == x then 1 else 0)
  }

  function Empties(t: Table): nat { Occurrences(t.keys, t.marker) }

  function Deleted(t: Table): nat { Occurrences(t.keys, Complement(t.marker)) }

  function Used(t: Table): int { |t.keys| - Empties(t) - Deleted(t) }

  // ---------- occurrence counts ----------

  lemma {:induction false} OccurrencesUpdate(s: seq<Word>, i: nat, v: Word, x: Word)
    requires i < |s|
    ensures Occurrences(s[i := v], x) == Occurrences(s, x) - (if s[i] == x then 1 else 0) + (if v == x then 1 else 0)
  {
    var n := |s| - 1;
    if i == n {
      assert s[i := v][..n] == s[..n];
    } else {
      assert s[i := v][..n] == s[..n][i := v];
      OccurrencesUpdate(s[..n], i, v, x);
    }
  }

  /** All slots are empty, deleted or live; two different sentinel words never share a slot. */
  lemma {:induction false} OccurrencesPair(s: seq<Word>, x: Word, y: Word)
    requires x != y
    ensures Occurrences(s, x) + Occurrences(s, y) <= |s|
    ensures Occurrences(s, x) + Occurrences(s, y) == 0 <==> forall i :: 0 <= i < |s| ==> s[i] != x && s[i] != y
    ensures Occurrences(s, x) + Occurrences(s, y) == |s| <==> forall i :: 0 <= i < |s| ==> s[i] == x || s[i] == y
  {
    if s != [] {
      var n := |s| - 1;
      OccurrencesPair(s[..n], x, y);
      assert forall i :: 0 <= i < n ==> s[..n][i] == s[i];
    }
  }

  lemma {:induction false} OccurrencesConstant(s: seq<Word>, x: Word)
    requires forall i :: 0 <= i < |s| ==> s[i] == x
    ensures forall y :: Occurrences(s, y) == if y == x then |s| else 0
  {
    if s != [] {
      OccurrencesConstant(s[..|s| - 1], x);
    }
  }

  lemma {:induction false} OccurrencesSimilar(s: seq<Word>, x: Word, s': seq<Word>, x': Word)
    requires |s| == |s'|
    requires forall i :: 0 <= i < |s| ==> (s[i] == x <==> s'[i] == x')
    ensures Occurrences(s, x) == Occurrences(s', x')
  {
    if s != [] {
      var n := |s| - 1;
      assert forall i :: 0 <= i < n ==> s[..n][i] == s[i] && s'[..n][i] == s'[i];
      OccurrencesSimilar(s[..n], x, s'[..n], x');
    }
  }

  /** A table that is not full of live keys has a slot to spare. */
  lemma SomeFree(t: Table)
    requires Used(t) < |t.keys|
    ensures exists i :: 0 <= i < |t.keys| && !Live(t, i)
  {
    OccurrencesPair(t.keys, t.marker, Complement(t.marker));
    var i :| 0 <= i < |t.keys| && IsMagic(t.marker, t.keys[i]);
    assert !Live(t, i);
  }

  /** The live slots of a prefix are live slots of the whole. */
  lemma {:induction false} UsedPrefix(t: Table, i: nat)
    requires i <= |t.keys| == |t.vals|
    ensures 0 <= Used(Table(t.marker, t.keys[..i], t.vals[..i])) <= Used(t)
    decreases |t.keys| - i
  {
    OccurrencesPair(t.keys[..i], t.marker, Complement(t.marker));
    if i < |t.keys| {
      assert t.keys[..i + 1][..i] == t.keys[..i];
      UsedPrefix(t, i + 1);
    } else {
      assert t.keys[..i] == t.keys && t.vals[..i] == t.vals;
    }
  }

  // ---------- contents ----------

  /** What storing one entry does to the multiplicity of class c. */
  lemma {:induction false} ContentsUpdate(keys: seq<Word>, vals: seq<nat>, cb: CallBacks, i: nat,
                                          k: Word, v: nat, c: Word)
    requires |vals| == |keys| && i < |keys|
    ensures Contents(keys[i := k], vals[i := v], cb)[c] ==
            Contents(keys, vals, cb)[c] - (if cb.rep(keys[i]) == c then vals[i] else 0)
            + (if cb.rep(k) == c then v else 0)
  {
    var n := |keys| - 1;
    ContentsLast(keys, vals, cb, c);
    ContentsLast(keys[i := k], vals[i := v], cb, c);
    if i == n {
      assert keys[i := k][..n] == keys[..n] && vals[i := v][..n] == vals[..n];
    } else {
      assert keys[i := k][..n] == keys[..n][i := k] && vals[i := v][..n] == vals[..n][i := v];
      ContentsUpdate(keys[..n], vals[..n], cb, i, k, v, c);
    }
  }

  lemma ContentsLast(keys: seq<Word>, vals: seq<nat>, cb: CallBacks, c: Word)
    requires |vals| == |keys| > 0
    ensures var n := |keys| - 1;
            Contents(keys, vals, cb)[c] ==
            Contents(keys[..n], vals[..n], cb)[c] + if cb.rep(keys[n]) == c then vals[n] else 0
  {
  }

  /** The multiset only depends on the counts and the classes of the counted keys. */
  lemma {:induction false} ContentsSimilar(keys: seq<Word>, keys': seq<Word>, vals: seq<nat>, cb: CallBacks)
    requires |vals| == |keys| == |keys'|
    requires forall i :: 0 <= i < |keys| && vals[i] > 0 ==> cb.Equal(keys[i], keys'[i])
    ensures Contents(keys, vals, cb) == Contents(keys', vals, cb)
  {
    if keys != [] {
      var n := |keys| - 1;
      ContentsSimilar(keys[..n], keys'[..n], vals[..n], cb);
    }
  }

  lemma {:induction false} ContentsAbsent(keys: seq<Word>, vals: seq<nat>, cb: CallBacks, c: Word)
    requires |vals| == |keys|
    requires forall i :: 0 <= i < |keys| && vals[i] > 0 ==> cb.rep(keys[i]) != c
    ensures Contents(keys, vals, cb)[c] == 0
  {
    if keys != [] {
      var n := |keys| - 1;
      ContentsAbsent(keys[..n], vals[..n], cb, c);
    }
  }

  /** In a well-formed table the one slot holding a key carries its whole multiplicity. */
  lemma ContentsAt(t: Table, cb: CallBacks, k: Word, i: int)
    requires WellFormed(t, cb) && Holds(t, cb, k, i)
    ensures Contents(t.keys, t.vals, cb)[cb.rep(k)] == t.vals[i] > 0
  {
    var vals' := t.vals[i := 0];
    assert t.keys[i := t.keys[i]] == t.keys;
    ContentsUpdate(t.keys, t.vals, cb, i, t.keys[i], 0, cb.rep(k));
    forall j | 0 <= j < |t.keys| && vals'[j] > 0
      ensures cb.rep(t.keys[j]) != cb.rep(k)
    {
      assert Live(t, j) && !cb.Equal(t.keys[i], t.keys[j]);
    }
    ContentsAbsent(t.keys, vals', cb, cb.rep(k));
  }

  lemma ContentsNotFound(t: Table, cb: CallBacks, k: Word)
    requires Counted(t) && !Found(t, cb, k)
    ensures Contents(t.keys, t.vals, cb)[cb.rep(k)] == 0
  {
    assert forall j :: Live(t, j) ==> !Holds(t, cb, k, j);
    ContentsAbsent(t.keys, t.vals, cb, cb.rep(k));
  }

  // ---------- what each change of a table keeps ----------

  /**
    Two tables with the same counts, the same empty slots and equal live keys in
    the same places: the outcome of renaming the sentinels or replacing a key.
  */
  ghost predicate Similar(t: Table, t': Table, cb: CallBacks) {
    && |t'.keys| == |t.keys|
    && t'.vals == t.vals
    && (forall i :: 0 <= i < |t.keys| ==> (t.keys[i] == t.marker <==> t'.keys[i] == t'.marker))
    && (forall i :: 0 <= i < |t.keys| ==> (Live(t, i) <==> Live(t', i)))
    && (forall i :: Live(t, i) ==> cb.Equal(t.keys[i], t'.keys[i]))
  }

  lemma SimilarKeepsTable(t: Table, t': Table, cb: CallBacks)
    requires cb.Lawful() && WellFormed(t, cb) && Similar(t, t', cb)
    ensures WellFormed(t', cb)
    ensures Contents(t'.keys, t'.vals, cb) == Contents(t.keys, t.vals, cb)
    ensures Empties(t') == Empties(t) && Deleted(t') == Deleted(t)
  {
    ContentsSimilar(t.keys, t'.keys, t.vals, cb);
    OccurrencesSimilar(t.keys, t.marker, t'.keys, t'.marker);
    OccurrencesSimilar(t.keys, Complement(t.marker), t'.keys, Complement(t'.marker));
  }

  /** The slot where a probe for k puts a new entry: the first one on its path that is not live. */
  ghost predicate FirstFree(t: Table, cb: CallBacks, k: Word, i: int) {
    && 0 <= i < |t.keys| && !Live(t, i)
    && forall j :: 0 <= j < |t.keys| && Between(cb.Home(k, |t.keys|), j, i) ==> Live(t, j)
  }

  function Store(t: Table, i: int, k: Word, v: nat): Table
    requires |t.vals| == |t.keys| && 0 <= i < |t.keys|
  {
    t.(keys := t.keys[i := k], vals := t.vals[i := v])
  }

  lemma StoreCounts(t: Table, i: int, k: Word, v: nat)
    requires |t.vals| == |t.keys| && 0 <= i < |t.keys|
    ensures Empties(Store(t, i, k, v)) ==
            Empties(t) - (if t.keys[i] == t.marker then 1 else 0) + (if k == t.marker then 1 else 0)
    ensures Deleted(Store(t, i, k, v)) ==
            Deleted(t) - (if t.keys[i] == Complement(t.marker) then 1 else 0)
            + (if k == Complement(t.marker) then 1 else 0)
  {
    OccurrencesUpdate(t.keys, i, k, t.marker);
    OccurrencesUpdate(t.keys, i, k, Complement(t.marker));
  }

  /** Storing an absent key in the first free slot of its path. */
  lemma InsertKeepsTable(t: Table, cb: CallBacks, i: int, k: Word, v: nat)
    requires cb.Lawful() && WellFormed(t, cb)
    requires !Found(t, cb, k) && FirstFree(t, cb, k, i) && !IsMagic(t.marker, k) && v > 0
    ensures WellFormed(Store(t, i, k, v), cb)
  {
    assert forall j :: Live(t, j) ==> !Holds(t, cb, k, j);
  }

  lemma InsertContents(t: Table, cb: CallBacks, i: int, k: Word, v: nat)
    requires Counted(t) && !Found(t, cb, k) && 0 <= i < |t.keys| && !Live(t, i)
    ensures Contents(t.keys, t.vals, cb)[cb.rep(k)] == 0
    ensures Contents(t.keys[i := k], t.vals[i := v], cb) == Contents(t.keys, t.vals, cb)[cb.rep(k) := v]
  {
    ContentsNotFound(t, cb, k);
    var m, m' := Contents(t.keys, t.vals, cb), Contents(t.keys[i := k], t.vals[i := v], cb);
    forall c
      ensures m'[c] == m[cb.rep(k) := v][c]
    {
      ContentsUpdate(t.keys, t.vals, cb, i, k, v, c);
    }
  }

  /** Changing the count of a live slot. */
  lemma RecountKeepsTable(t: Table, cb: CallBacks, i: int, v: nat)
    requires WellFormed(t, cb) && Live(t, i) && v > 0
    ensures WellFormed(t.(vals := t.vals[i := v]), cb)
    ensures Contents(t.keys, t.vals[i := v], cb) ==
            Contents(t.keys, t.vals, cb)[cb.rep(t.keys[i]) := v]
  {
    assert t.keys[i := t.keys[i]] == t.keys;
    ContentsAt(t, cb, t.keys[i], i);
    var m, m' := Contents(t.keys, t.vals, cb), Contents(t.keys, t.vals[i := v], cb);
    forall c
      ensures m'[c] == m[cb.rep(t.keys[i]) := v][c]
    {
      ContentsUpdate(t.keys, t.vals, cb, i, t.keys[i], v, c);
    }
  }

  /** Deleting a live slot leaves every other key reachable. */
  lemma DeleteKeepsTable(t: Table, cb: CallBacks, i: int)
    requires WellFormed(t, cb) && Live(t, i)
    ensures WellFormed(Store(t, i, Complement(t.marker), 0), cb)
  {
    var t' := Store(t, i, Complement(t.marker), 0);
    assert forall j :: Live(t', j) ==> Live(t, j) && j != i && t'.keys[j] == t.keys[j];
  }

  lemma DeleteContents(t: Table, cb: CallBacks, i: int)
    requires WellFormed(t, cb) && Live(t, i)
    ensures Contents(t.keys[i := Complement(t.marker)], t.vals[i := 0], cb) ==
            Contents(t.keys, t.vals, cb)[cb.rep(t.keys[i]) := 0]
  {
    ContentsAt(t, cb, t.keys[i], i);
    var m, m' := Contents(t.keys, t.vals, cb), Contents(t.keys[i := Complement(t.marker)], t.vals[i := 0], cb);
    forall c
      ensures m'[c] == m[cb.rep(t.keys[i]) := 0][c]
    {
      ContentsUpdate(t.keys, t.vals, cb, i, Complement(t.marker), 0, c);
    }
  }

  /**
    A deleted slot just below an empty one can become empty: no live key's probe
    path runs through it, since that path would also cross the empty slot.
  */
  lemma ReclaimKeepsTable(t: Table, cb: CallBacks, i: int)
    requires WellFormed(t, cb)
    requires 0 <= i < |t.keys| - 1 && t.keys[i] == Complement(t.marker) && t.keys[i + 1] == t.marker
    ensures WellFormed(t.(keys := t.keys[i := t.marker]), cb)
    ensures Contents(t.keys[i := t.marker], t.vals, cb) == Contents(t.keys, t.vals, cb)
  {
    var t' := t.(keys := t.keys[i := t.marker]);
    assert forall p :: Live(t', p) ==> Live(t, p) && p != i && p != i + 1;
    assert forall p :: Live(t', p) ==> !Between(cb.Home(t.keys[p], |t.keys|), i + 1, p);
    ContentsSimilar(t.keys, t'.keys, t.vals, cb);
  }

  /** A table with no live slot represents the empty multiset. */
  lemma BlankTable(t: Table, cb: CallBacks)
    requires |t.vals| == |t.keys|
    requires forall i :: 0 <= i < |t.keys| ==> t.keys[i] == t.marker && t.vals[i] == 0
    ensures WellFormed(t, cb)
    ensures Contents(t.keys, t.vals, cb) == multiset{}
    ensures Empties(t) == |t.keys| && Deleted(t) == 0
  {
    forall c
      ensures Contents(t.keys, t.vals, cb)[c] == 0
    {
      ContentsAbsent(t.keys, t.vals, cb, c);
    }
    OccurrencesConstant(t.keys, t.marker);
  }

  /** No live slot, no contents. */
  lemma UnusedIsEmpty(t: Table, cb: CallBacks)
    requires Counted(t) && Used(t) == 0
    ensures Contents(t.keys, t.vals, cb) == multiset{}
  {
    OccurrencesPair(t.keys, t.marker, Complement(t.marker));
    forall c
      ensures Contents(t.keys, t.vals, cb)[c] == 0
    {
      ContentsAbsent(t.keys, t.vals, cb, c);
    }
  }

  /** The whole effect of storing an absent key once. */
  lemma InsertEffect(t: Table, cb: CallBacks, i: int, k: Word)
    requires cb.Lawful() && WellFormed(t, cb)
    requires !Found(t, cb, k) && FirstFree(t, cb, k, i) && !IsMagic(t.marker, k)
    ensures var t' := Store(t, i, k, 1);
            && WellFormed(t', cb)
            && Contents(t'.keys, t'.vals, cb) == Contents(t.keys, t.vals, cb) + multiset{cb.rep(k)}
            && Used(t') == Used(t) + 1
            && Deleted(t') == Deleted(t) - (if t.keys[i] == Complement(t.marker) then 1 else 0)
  {
    InsertKeepsTable(t, cb, i, k, 1);
    InsertContents(t, cb, i, k, 1);
    FirstOccurrence(Contents(t.keys, t.vals, cb), cb.rep(k));
    StoreCounts(t, i, k, 1);
  }

  lemma FirstOccurrence(m: multiset<Word>, c: Word)
    requires m[c] == 0
    ensures m[c := 1] == m + multiset{c}
  {
  }

  /** The whole effect of deleting a key that occurs once. */
  lemma DeleteEffect(t: Table, cb: CallBacks, i: int)
    requires WellFormed(t, cb) && Live(t, i) && t.vals[i] == 1
    ensures var t' := Store(t, i, Complement(t.marker), 0);
            && WellFormed(t', cb)
            && Contents(t.keys, t.vals, cb)[cb.rep(t.keys[i])] == 1
            && Contents(t'.keys, t'.vals, cb) == Contents(t.keys, t.vals, cb) - multiset{cb.rep(t.keys[i])}
            && Used(t') == Used(t) - 1 >= 0
            && Deleted(t') == Deleted(t) + 1
  {
    DeleteKeepsTable(t, cb, i);
    DeleteContents(t, cb, i);
    ContentsAt(t, cb, t.keys[i], i);
    StoreCounts(t, i, Complement(t.marker), 0);
    OccurrencesPair(t.keys[i := Complement(t.marker)], t.marker, Complement(t.marker));
  }
}
