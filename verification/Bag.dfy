/** CFBag: the hash multiset over the bucket table. */
module Bag {
  import opened Bits
  import opened BagTable

  const NOT_FOUND: int := -1

  /** No more key words than this fit in the address space. */
  const MAX_BUCKETS: nat := 0x1000_0000_0000_0000

  // ---------- capacities ----------

  /** `(capacity - 1) / 3` as C computes it, truncating toward zero. */
  function Third(capacity: nat): nat {
    if capacity == 0 then 0 else (capacity - 1) / 3
  }

  function RoundUpCapacity(capacity: nat): nat {
    3 * Pow2(Flsl(Third(capacity)))
  }

  function NumBucketsForCapacity(capacity: nat): nat {
    4 * Pow2(Flsl(Third(capacity)))
  }

  /** The sizes a bag can have: 4 * 2^k buckets holding at most 3 * 2^k keys. */
  ghost predicate Sized(cap: nat, buckets: nat) {
    exists k: nat :: cap == 3 * Pow2(k) && buckets == 4 * Pow2(k)
  }

  /** cap is the least legal capacity for a load. */
  ghost predicate IsLeastCapacity(load: nat, cap: nat, buckets: nat) {
    && load <= cap && Sized(cap, buckets)
    && forall cap': nat, n': nat :: Sized(cap', n') && load <= cap' ==> cap <= cap' && buckets <= n'
  }

  /** Some legal size within the address space is enough for a load. */
  ghost predicate Fits(load: nat) {
    exists cap: nat, n: nat :: Sized(cap, n) && load <= cap && n <= MAX_BUCKETS
  }

  lemma RoundUpIsLeast(load: nat)
    ensures IsLeastCapacity(load, RoundUpCapacity(load), NumBucketsForCapacity(RoundUpCapacity(load)))
  {
    var x := Third(load);
    var k := Flsl(x);
    FlslBounds(x);
    assert Third(3 * Pow2(k)) == Pow2(k) - 1;
    FlslUnique(Pow2(k) - 1, k);
    assert Sized(3 * Pow2(k), 4 * Pow2(k));
    forall cap: nat, n: nat | Sized(cap, n) && load <= cap
      ensures 3 * Pow2(k) <= cap && 4 * Pow2(k) <= n
    {
      var q: nat :| cap == 3 * Pow2(q) && n == 4 * Pow2(q);
      if q < k {
        Pow2Monotone(q, k - 1);
      } else {
        Pow2Monotone(k, q);
      }
    }
  }

  /** A table of the least size for its load is not due to shrink, however much room was asked for. */
  lemma LeastIsNotSparse(load: nat, cap: nat, n: nat)
    requires IsLeastCapacity(load, cap, n)
    ensures cap > 3 ==> cap < 2 * load
  {
    var k: nat :| cap == 3 * Pow2(k) && n == 4 * Pow2(k);
    if k > 0 {
      assert Pow2(k) == 2 * Pow2(k - 1);
      assert Sized(3 * Pow2(k - 1), 4 * Pow2(k - 1));
    }
  }

  /** A size with room to double in the address space can take one more key. */
  lemma DoubleFits(cap: nat, n: nat)
    requires Sized(cap, n) && 2 * n <= MAX_BUCKETS
    ensures Fits(cap + 1)
  {
    var k: nat :| cap == 3 * Pow2(k) && n == 4 * Pow2(k);
    assert Pow2(k + 1) == 2 * Pow2(k);
    assert Sized(2 * cap, 2 * n);
  }

  // ---------- a free pair of sentinel words ----------

  predicate FreePair(keys: seq<Word>, m: Word) {
    m !in keys && Complement(m) !in keys
  }

  lemma {:induction false} RangeSize(n: nat, s: set<int>)
    requires forall x :: 0 <= x < n ==> x in s
    ensures |s| >= n
  {
    if n > 0 {
      RangeSize(n - 1, s - {n - 1});
    }
  }

  lemma {:induction false} TakenSize(keys: seq<Word>) returns (taken: set<int>)
    ensures |taken| <= 2 * |keys|
    ensures forall m: Word :: !FreePair(keys, m) ==> m in taken
  {
    if keys == [] {
      taken := {};
    } else {
      var k := keys[0];
      var rest := TakenSize(keys[1..]);
      taken := rest + {k as int} + {Complement(k) as int};
      forall m: Word | !FreePair(keys, m)
        ensures m in taken
      {
        assert keys == [k] + keys[1..];
        if m != k && Complement(m) != k {
          assert !FreePair(keys[1..], m);
        }
      }
    }
  }

  /** Fewer than 2^63 keys leave some pair of complementary words unused. */
  lemma FreePairExists(keys: seq<Word>) returns (f: Word)
    requires 2 * |keys| < WORD_SPAN
    ensures FreePair(keys, f)
  {
    var taken := TakenSize(keys);
    if forall m: Word :: !FreePair(keys, m) {
      forall x | 0 <= x < 2 * |keys| + 1
        ensures x in taken
      {
        assert !FreePair(keys, x as Word);
      }
      RangeSize(2 * |keys| + 1, taken);
      assert false;
    }
    f :| FreePair(keys, f);
  }

  function Renamed(key: Word, m: Word, m': Word): Word {
    if key == m then m' else if key == Complement(m) then Complement(m') else key
  }

  function PreviousWord(w: Word): Word {
    if w == 0 then WORD_SPAN - 1 else w - 1
  }

  /** How many decrements lead from w to f. */
  function Distance(w: Word, f: Word): nat {
    if f <= w then w - f else w - f + WORD_SPAN
  }

  // ---------- one step of a rehash ----------

  lemma RehashStep(t: Table, t0: Table, cb: CallBacks, idx: nat, i: int)
    requires cb.Lawful() && WellFormed(t, cb) && WellFormed(t0, cb) && t.marker == t0.marker && Live(t0, idx)
    requires !Found(t, cb, t0.keys[idx]) && FirstFree(t, cb, t0.keys[idx], i) && Deleted(t) == 0
    requires Contents(t.keys, t.vals, cb) == Contents(t0.keys[..idx], t0.vals[..idx], cb)
    requires Used(t) == Used(Table(t0.marker, t0.keys[..idx], t0.vals[..idx]))
    ensures var t' := Store(t, i, t0.keys[idx], t0.vals[idx]);
            && WellFormed(t', cb) && Deleted(t') == 0
            && Contents(t'.keys, t'.vals, cb) == Contents(t0.keys[..idx + 1], t0.vals[..idx + 1], cb)
            && Used(t') == Used(Table(t0.marker, t0.keys[..idx + 1], t0.vals[..idx + 1]))
  {
    InsertNew(t, cb, i, t0.keys[idx], t0.vals[idx]);
    PrefixGrows(t0, cb, idx);
  }

  /** Storing an absent key where nothing is deleted takes an empty slot. */
  lemma InsertNew(t: Table, cb: CallBacks, i: int, k: Word, v: nat)
    requires cb.Lawful() && WellFormed(t, cb) && !Found(t, cb, k) && FirstFree(t, cb, k, i)
    requires Deleted(t) == 0 && !IsMagic(t.marker, k) && v > 0
    ensures var t' := Store(t, i, k, v);
            && WellFormed(t', cb) && Deleted(t') == 0 && Used(t') == Used(t) + 1
            && Contents(t'.keys, t'.vals, cb) == Contents(t.keys, t.vals, cb)[cb.rep(k) := v]
            && Contents(t.keys, t.vals, cb)[cb.rep(k)] == 0
  {
    InsertKeepsTable(t, cb, i, k, v);
    InsertContents(t, cb, i, k, v);
    StoreCounts(t, i, k, v);
    OccurrencesUpdate(t.keys, i, k, Complement(t.marker));
  }

  lemma PrefixGrows(t0: Table, cb: CallBacks, idx: nat)
    requires Counted(t0) && Live(t0, idx)
    ensures var m := Contents(t0.keys[..idx], t0.vals[..idx], cb); var r := cb.rep(t0.keys[idx]);
            Contents(t0.keys[..idx + 1], t0.vals[..idx + 1], cb) == m[r := m[r] + t0.vals[idx]]
    ensures Used(Table(t0.marker, t0.keys[..idx + 1], t0.vals[..idx + 1])) ==
            Used(Table(t0.marker, t0.keys[..idx], t0.vals[..idx])) + 1
  {
    assert t0.keys[..idx + 1][..idx] == t0.keys[..idx] && t0.vals[..idx + 1][..idx] == t0.vals[..idx];
  }

  lemma RehashSkip(t0: Table, cb: CallBacks, idx: nat)
    requires Counted(t0) && idx < |t0.keys| && !Live(t0, idx)
    ensures Contents(t0.keys[..idx + 1], t0.vals[..idx + 1], cb) == Contents(t0.keys[..idx], t0.vals[..idx], cb)
    ensures Used(Table(t0.marker, t0.keys[..idx + 1], t0.vals[..idx + 1])) ==
            Used(Table(t0.marker, t0.keys[..idx], t0.vals[..idx]))
  {
    assert t0.keys[..idx + 1][..idx] == t0.keys[..idx] && t0.vals[..idx + 1][..idx] == t0.vals[..idx];
  }

  /** Replacing a key through a deleted slot, sentinels renamed in between, keeps the table similar. */
  lemma RekeySimilar(t0: Table, t1: Table, t2: Table, t3: Table, cb: CallBacks, i: int, key: Word)
    requires Holds(t0, cb, key, i) && Similar(t1, t2, cb) && !IsMagic(t2.marker, key)
    requires t1 == t0.(keys := t0.keys[i := Complement(t0.marker)])
    requires t3 == t2.(keys := t2.keys[i := key])
    ensures Similar(t0, t3, cb)
  {
    forall j | 0 <= j < |t0.keys|
      ensures t0.keys[j] == t0.marker <==> t3.keys[j] == t3.marker
      ensures Live(t0, j) <==> Live(t3, j)
      ensures Live(t0, j) ==> cb.Equal(t0.keys[j], t3.keys[j])
    {
      if j != i {
        assert t1.keys[j] == t0.keys[j] && t3.keys[j] == t2.keys[j];
        assert Live(t1, j) <==> Live(t0, j);
      }
    }
  }

  /** The slot found for a key stays the one for its retained copy when the sentinels are renamed. */
  lemma FreeAfterRename(t0: Table, t1: Table, cb: CallBacks, key: Word, i: int)
    requires cb.Lawful() && Similar(t0, t1, cb) && !Found(t0, cb, key) && FirstFree(t0, cb, key, i)
    ensures !Found(t1, cb, cb.retain(key)) && FirstFree(t1, cb, cb.retain(key), i)
  {
    assert forall j :: Holds(t1, cb, cb.retain(key), j) ==> Holds(t0, cb, key, j);
    assert cb.hash(cb.retain(key)) == cb.hash(cb.rep(key)) == cb.hash(key);
  }

  /** Agreement on the keys of one bag and equal totals leave no room for other keys. */
  lemma EqualFromPart(t: Table, m: multiset<Word>, cb: CallBacks)
    requires WellFormed(t, cb)
    requires forall i :: 0 <= i < |t.keys| && Live(t, i) ==> t.vals[i] == m[cb.rep(t.keys[i])]
    requires |Contents(t.keys, t.vals, cb)| == |m|
    ensures Contents(t.keys, t.vals, cb) == m
  {
    var c := Contents(t.keys, t.vals, cb);
    forall x
      ensures c[x] <= m[x]
    {
      if i :| 0 <= i < |t.keys| && t.vals[i] > 0 && cb.rep(t.keys[i]) == x {
        assert Live(t, i);
        ContentsAt(t, cb, t.keys[i], i);
      } else {
        ContentsAbsent(t.keys, t.vals, cb, x);
      }
    }
    assert m == c + (m - c);
  }

  /** Slots lo+1 to hi were all the deleted slots in a row up to hi, and are now empty. */
  ghost predicate RunCleared(before: seq<Word>, after: seq<Word>, marker: Word, lo: int, hi: int)
    requires |after| == |before|
  {
    && -1 <= lo <= hi < |before|
    && (lo >= 0 ==> before[lo] != Complement(marker))
    && forall j :: 0 <= j < |before| ==>
         if lo < j <= hi then before[j] == Complement(marker) && after[j] == marker else after[j] == before[j]
  }

  // ---------- the abstract machine ----------

  datatype Op = Add(key: Word) | Set(key: Word) | Replace(key: Word) | Remove(key: Word) | RemoveAll

  /** What each operation does to the multiset of key classes. */
  function Apply(m: multiset<Word>, cb: CallBacks, op: Op): multiset<Word> {
    match op
    case Add(k) => m + multiset{cb.rep(k)}
    case Set(k) => if cb.rep(k) in m then m else m + multiset{cb.rep(k)}
    case Replace(k) => m
    case Remove(k) => m - multiset{cb.rep(k)}
    case RemoveAll => multiset{}
  }

  function ApplyAll(cb: CallBacks, ops: seq<Op>): multiset<Word> {
    if ops == [] then multiset{} else Apply(ApplyAll(cb, ops[..|ops| - 1]), cb, ops[|ops| - 1])
  }

  // ---------- how many keys there are ----------

  ghost function Classes(m: multiset<Word>): set<Word> {
    set c | c in m
  }

  /** A store for twice as many classes of keys fits in the address space. */
  ghost predicate Holdable(m: multiset<Word>) {
    8 * |Classes(m)| <= 3 * MAX_BUCKETS
  }

  /** The used slots are as many as the classes of keys held. */
  lemma {:induction false} UsedIsClasses(t: Table, cb: CallBacks, n: nat)
    requires Counted(t) && Distinct(t, cb) && n <= |t.keys|
    ensures Used(Table(t.marker, t.keys[..n], t.vals[..n])) == |Classes(Contents(t.keys[..n], t.vals[..n], cb))|
  {
    if n > 0 {
      UsedIsClasses(t, cb, n - 1);
      if Live(t, n - 1) {
        ClassAdded(t, cb, n - 1);
      } else {
        RehashSkip(t, cb, n - 1);
      }
    }
  }

  lemma ClassAdded(t: Table, cb: CallBacks, idx: nat)
    requires Counted(t) && Distinct(t, cb) && Live(t, idx)
    ensures Used(Table(t.marker, t.keys[..idx + 1], t.vals[..idx + 1])) ==
            Used(Table(t.marker, t.keys[..idx], t.vals[..idx])) + 1
    ensures |Classes(Contents(t.keys[..idx + 1], t.vals[..idx + 1], cb))| ==
            |Classes(Contents(t.keys[..idx], t.vals[..idx], cb))| + 1
  {
    PrefixGrows(t, cb, idx);
    NewClass(t, cb, idx);
  }

  lemma NewClass(t: Table, cb: CallBacks, idx: nat)
    requires Counted(t) && Distinct(t, cb) && Live(t, idx)
    ensures var m := Contents(t.keys[..idx], t.vals[..idx], cb); var r := cb.rep(t.keys[idx]);
            r !in m && |Classes(m[r := m[r] + t.vals[idx]])| == |Classes(m)| + 1
  {
    var m, r := Contents(t.keys[..idx], t.vals[..idx], cb), cb.rep(t.keys[idx]);
    forall j | 0 <= j < idx && t.vals[j] > 0
      ensures cb.rep(t.keys[j]) != r
    {
      assert Live(t, j) && !cb.Equal(t.keys[j], t.keys[idx]);
    }
    ContentsAbsent(t.keys[..idx], t.vals[..idx], cb, r);
    assert Classes(m[r := m[r] + t.vals[idx]]) == Classes(m) + {r};
  }

  // ---------- the concrete machine ----------

  class Bag {
    const cb: CallBacks
    var count: int
    var used: int
    var cap: nat
    var deletes: int
    var marker: Word
    var keys: array<Word>    // of length 0 until the store is allocated
    var values: array<nat>

    ghost function T(): Table
      reads this, keys, values
    {
      Table(marker, keys[..], values[..])
    }

    /** The multiset this bag represents. */
    ghost function Value(): multiset<Word>
      reads this, keys, values
      requires keys.Length == values.Length
    {
      Contents(keys[..], values[..], cb)
    }

    ghost predicate Shape()
      reads this, keys, values
    {
      && cb.Lawful()
      && keys.Length == values.Length <= MAX_BUCKETS
      && keys as object != values as object
      && WellFormed(T(), cb)
    }

    /** The counters tell the truth. */
    ghost predicate Accounted()
      reads this, keys, values
    {
      && Shape()
      && used == Used(T()) >= 0
      && deletes == Deleted(T())
      && count == |Value()|
      && used <= cap
      && (if keys.Length == 0 then cap == 3 else Sized(cap, keys.Length))
    }

    /** This very word, and not only an equal one, is the key of some entry. */
    ghost predicate Stores(key: Word)
      reads this, keys, values
    {
      exists i :: Live(T(), i) && keys[i] == key
    }

    /** What holds between calls. */
    ghost predicate Valid()
      reads this, keys, values
    {
      Accounted() && 4 * deletes <= keys.Length
    }

    constructor (cb: CallBacks)
      requires cb.Lawful()
      ensures Valid() && fresh(keys) && fresh(values)
      ensures this.cb == cb && Value() == multiset{} && used == 0
    {
      this.cb := cb;
      count, used, deletes := 0, 0, 0;
      marker := 0xa1b1c1d3;
      cap := RoundUpCapacity(1);
      keys := new Word[0];
      values := new nat[0];
    }

    predicate ShouldShrink()
      reads this
    {
      keys.Length < 4 * deletes || (256 <= cap && used < 3 * cap / 16)
    }

    /** Lookup probe: finds the slot of a key exactly when the key is present. */
    method FindBuckets1(key: Word) returns (match_: int)
      requires Shape() && keys.Length > 0
      ensures match_ == NOT_FOUND <==> !Found(T(), cb, key)
      ensures match_ != NOT_FOUND ==> Holds(T(), cb, key, match_)
    {
      var start := cb.Home(key, keys.Length);
      var probe := start;
      ghost var t := T();
      while true
        invariant 0 <= probe < keys.Length
        invariant forall j :: 0 <= j < keys.Length && Between(start, j, probe) ==>
                              keys[j] != marker && !Holds(t, cb, key, j)
        decreases if probe < start then start - probe else start + keys.Length - probe
      {
        var currKey := keys[probe];
        if currKey == marker {
          assert forall i :: Holds(t, cb, key, i) ==> cb.Home(t.keys[i], keys.Length) == start;
          return NOT_FOUND;
        } else if currKey == Complement(marker) {
        } else if currKey == key || cb.Equal(currKey, key) {
          assert Holds(t, cb, key, probe);
          return probe;
        }
        probe := probe + 1;
        if keys.Length <= probe {
          probe := probe - keys.Length;
        }
        if start == probe {
          return NOT_FOUND;
        }
      }
    }

    /** Insertion probe: the key's slot if present, and otherwise the first free slot of its path. */
    method FindBuckets2(key: Word) returns (match_: int, nomatch: int)
      requires Shape() && keys.Length > 0
      ensures match_ == NOT_FOUND <==> !Found(T(), cb, key)
      ensures match_ != NOT_FOUND ==> Holds(T(), cb, key, match_)
      ensures match_ == NOT_FOUND && nomatch == NOT_FOUND ==> forall i :: 0 <= i < keys.Length ==> Live(T(), i)
      ensures match_ == NOT_FOUND && nomatch != NOT_FOUND ==> FirstFree(T(), cb, key, nomatch)
    {
      match_, nomatch := NOT_FOUND, NOT_FOUND;
      var start := cb.Home(key, keys.Length);
      var probe := start;
      ghost var t := T();
      while true
        invariant 0 <= probe < keys.Length
        invariant match_ == NOT_FOUND
        invariant forall j :: 0 <= j < keys.Length && Between(start, j, probe) ==>
                              keys[j] != marker && !Holds(t, cb, key, j)
        invariant nomatch == NOT_FOUND ==>
                    forall j :: 0 <= j < keys.Length && Between(start, j, probe) ==> Live(t, j)
        invariant nomatch != NOT_FOUND ==> FirstFree(t, cb, key, nomatch)
        decreases if probe < start then start - probe else start + keys.Length - probe
      {
        var currKey := keys[probe];
        if currKey == marker {
          assert forall i :: Holds(t, cb, key, i) ==> cb.Home(t.keys[i], keys.Length) == start;
          if nomatch == NOT_FOUND {
            nomatch := probe;
          }
          return;
        } else if currKey == Complement(marker) {
          if nomatch == NOT_FOUND {
            nomatch := probe;
          }
        } else if currKey == key || cb.Equal(currKey, key) {
          assert Holds(t, cb, key, probe);
          match_ := probe;
          return;
        }
        probe := probe + 1;
        if keys.Length <= probe {
          probe := probe - keys.Length;
        }
        if start == probe {
          return;
        }
      }
    }

    /** Renames both sentinels to a pair that no slot holds. */
    method FindNewMarker()
      requires keys.Length <= MAX_BUCKETS
      requires exists i :: 0 <= i < keys.Length && IsMagic(marker, keys[i])
      modifies this`marker, keys
      ensures !IsMagic(old(marker), marker) && FreePair(old(keys[..]), marker)
      ensures forall i :: 0 <= i < keys.Length ==> keys[i] == Renamed(old(keys[i]), old(marker), marker)
    {
      ghost var f := FreePairExists(keys[..]);
      var newMarker := marker;
      var hit := true;
      while hit
        invariant keys[..] == old(keys[..])
        invariant hit ==> newMarker != f
        invariant !hit ==> FreePair(keys[..], newMarker)
        decreases hit, Distance(newMarker, f)
      {
        newMarker := PreviousWord(newMarker);
        hit := false;
        var idx := 0;
        while idx < keys.Length
          invariant 0 <= idx <= keys.Length
          invariant !hit ==> FreePair(keys[..idx], newMarker)
          invariant hit ==> !FreePair(keys[..], newMarker)
        {
          if newMarker == keys[idx] || Complement(newMarker) == keys[idx] {
            assert keys[idx] in keys[..];
            hit := true;
            break;
          }
          idx := idx + 1;
        }
        assert keys[..keys.Length] == keys[..];
      }
      var idx := 0;
      while idx < keys.Length
        invariant 0 <= idx <= keys.Length
        invariant forall i :: 0 <= i < idx ==> keys[i] == Renamed(old(keys[i]), marker, newMarker)
        invariant forall i :: idx <= i < keys.Length ==> keys[i] == old(keys[i])
        invariant marker == old(marker)
      {
        keys[idx] := Renamed(keys[idx], marker, newMarker);
        idx := idx + 1;
      }
      marker := newMarker;
    }

    method WriteSlot(slot: int, key: Word, value: nat)
      requires keys.Length == values.Length && keys as object != values as object && 0 <= slot < keys.Length
      modifies keys, values
      ensures T() == Store(old(T()), slot, key, value)
    {
      keys[slot] := key;
      values[slot] := value;
    }

    /** Rehashes into a table of the least size for the present keys and `numNew` more. */
    method Grow(numNew: nat)
      requires Accounted() && Fits(used + numNew)
      modifies this
      ensures Valid() && fresh(keys) && fresh(values)
      ensures Value() == old(Value())
      ensures used == old(used) && count == old(count) && deletes == 0 && marker == old(marker)
      ensures IsLeastCapacity(used + numNew, cap, keys.Length)
    {
      ghost var load := used + numNew;
      RoundUpIsLeast(load);
      var newCap := RoundUpCapacity(used + numNew);
      Rebuild(newCap, NumBucketsForCapacity(newCap));
    }

    /** Allocates blank arrays of a legal size and moves every entry over. */
    method Rebuild(newCap: nat, num: nat)
      requires Accounted() && Sized(newCap, num) && used <= newCap && num <= MAX_BUCKETS
      modifies this
      ensures Valid() && fresh(keys) && fresh(values) && keys.Length == num && cap == newCap
      ensures Value() == old(Value())
      ensures used == old(used) && count == old(count) && deletes == 0 && marker == old(marker)
    {
      ghost var t0 := T();
      var oldKeys, oldValues := keys, values;
      Reset(newCap, num);
      Rehash(oldKeys, oldValues, t0);
    }

    method Reset(newCap: nat, num: nat)
      requires cb.Lawful() && num <= MAX_BUCKETS
      modifies this
      ensures fresh(keys) && fresh(values) && keys.Length == num
      ensures cap == newCap && used == old(used) && count == old(count) && deletes == 0 && marker == old(marker)
      ensures Shape() && Value() == multiset{} && Used(T()) == Deleted(T()) == 0
    {
      var m := marker;
      cap, deletes := newCap, 0;
      keys := new Word[num](_ => m);
      values := new nat[num](_ => 0);
      BlankTable(T(), cb);
    }

    /** A rehash within the present capacity never needs a larger store. */
    method Shrink(spare: nat)
      requires Accounted() && keys.Length > 0 && used + spare <= cap
      modifies this
      ensures Valid() && fresh(keys) && fresh(values)
      ensures Value() == old(Value()) && used == old(used) && cap <= old(cap)
      ensures deletes == 0 && (cap > 3 ==> cap < 2 * (used + spare))
    {
      assert Fits(used + spare);
      Grow(spare);
      LeastIsNotSparse(used + spare, cap, keys.Length);
    }

    /** The new table holds exactly the first idx entries of t0. */
    ghost predicate Holding(t0: Table, idx: nat)
      reads this, keys, values
      requires idx <= |t0.keys| == |t0.vals|
    {
      && Shape()
      && Deleted(T()) == 0
      && Value() == Contents(t0.keys[..idx], t0.vals[..idx], cb)
      && Used(T()) == Used(Table(t0.marker, t0.keys[..idx], t0.vals[..idx]))
    }

    /** Reinserts every live entry of the old store. */
    method Rehash(oldKeys: array<Word>, oldValues: array<nat>, ghost t0: Table)
      requires oldKeys[..] == t0.keys && oldValues[..] == t0.vals && t0.marker == marker
      requires oldKeys as object != keys && oldKeys as object != values
      requires oldValues as object != keys && oldValues as object != values
      requires WellFormed(t0, cb) && Used(t0) < keys.Length && Holding(t0, 0)
      modifies keys, values
      ensures unchanged(this)
      ensures Holding(t0, |t0.keys|) && Value() == Contents(t0.keys, t0.vals, cb) && Used(T()) == Used(t0)
    {
      var idx := 0;
      while idx < oldKeys.Length
        invariant 0 <= idx <= oldKeys.Length
        invariant oldKeys[..] == t0.keys && oldValues[..] == t0.vals
        invariant Holding(t0, idx) && unchanged(this)
      {
        var key, value := oldKeys[idx], oldValues[idx];
        if !IsMagic(marker, key) {
          Reinsert(key, value, t0, idx);
        } else {
          RehashSkip(t0, cb, idx);
        }
        idx := idx + 1;
      }
      assert t0.keys[..idx] == t0.keys && t0.vals[..idx] == t0.vals;
    }

    /** Puts one live entry of the old table into the new one. */
    method Reinsert(key: Word, value: nat, ghost t0: Table, ghost idx: nat)
      requires WellFormed(t0, cb) && t0.marker == marker && Used(t0) < keys.Length
      requires Live(t0, idx) && Holding(t0, idx) && key == t0.keys[idx] && value == t0.vals[idx]
      modifies keys, values
      ensures unchanged(this) && Holding(t0, idx + 1)
    {
      ReinsertIsNew(T(), t0, idx);
      UsedPrefix(t0, idx);
      SomeFree(T());
      var match_, nomatch := FindBuckets2(key);
      RehashStep(T(), t0, cb, idx, nomatch);
      WriteSlot(nomatch, key, value);
    }

    lemma ReinsertIsNew(t: Table, t0: Table, idx: nat)
      requires WellFormed(t, cb) && WellFormed(t0, cb) && Live(t0, idx)
      requires Contents(t.keys, t.vals, cb) == Contents(t0.keys[..idx], t0.vals[..idx], cb)
      ensures !Found(t, cb, t0.keys[idx])
    {
      var key := t0.keys[idx];
      forall j | 0 <= j < idx && t0.vals[j] > 0
        ensures cb.rep(t0.keys[j]) != cb.rep(key)
      {
        assert Live(t0, j) && !cb.Equal(t0.keys[j], key);
      }
      ContentsAbsent(t0.keys[..idx], t0.vals[..idx], cb, cb.rep(key));
      if i :| Holds(t, cb, key, i) {
        ContentsAt(t, cb, key, i);
        assert false;
      }
    }

    /** Lookup behind the shared guard that an empty bag answers at once. */
    method Locate(key: Word) returns (slot: int)
      requires Valid()
      ensures slot == NOT_FOUND ==> Value()[cb.rep(key)] == 0
      ensures slot != NOT_FOUND ==> Holds(T(), cb, key, slot) && values[slot] == Value()[cb.rep(key)]
    {
      if used == 0 {
        OccurrencesPair(keys[..], marker, Complement(marker));
        ContentsNotFound(T(), cb, key);
        return NOT_FOUND;
      }
      slot := FindBuckets1(key);
      if slot == NOT_FOUND {
        ContentsNotFound(T(), cb, key);
      } else {
        ContentsAt(T(), cb, key, slot);
      }
    }

    method GetCountOfValue(key: Word) returns (n: nat)
      requires Valid()
      ensures n == Value()[cb.rep(key)]
    {
      var slot := Locate(key);
      n := if slot != NOT_FOUND then values[slot] else 0;
    }

    /** The room check and growth at the head of an insertion. */
    method MakeRoom()
      requires Valid() && (used < cap || 2 * keys.Length <= MAX_BUCKETS)
      modifies this
      ensures Valid() && keys.Length > 0 && used < cap
      ensures Value() == old(Value()) && used == old(used) && count == old(count)
      ensures (keys == old(keys) && values == old(values)) || (fresh(keys) && fresh(values))
    {
      if used == cap || keys.Length == 0 {
        if keys.Length == 0 {
          assert Pow2(0) == 1 && Sized(3, 4);
          assert Fits(used + 1);
        } else {
          DoubleFits(cap, keys.Length);
        }
        Grow(1);
      }
    }

    /** Renames the sentinels when the word about to be stored is one of them. */
    method DodgeMarker(newKey: Word)
      requires keys.Length == values.Length <= MAX_BUCKETS && keys as object != values as object
      requires exists i :: 0 <= i < keys.Length && IsMagic(marker, keys[i])
      modifies this`marker, keys
      ensures Similar(old(T()), T(), cb)
      ensures !IsMagic(marker, newKey)
    {
      if IsMagic(marker, newKey) {
        FindNewMarker();
        assert forall i :: 0 <= i < keys.Length ==> old(keys[..])[i] in old(keys[..]);
      }
    }

    /** Stores an absent key in the slot its probe returned. */
    method InsertAt(slot: int, key: Word)
      requires Valid() && used < cap && !Found(T(), cb, key) && FirstFree(T(), cb, key, slot)
      modifies this, keys, values
      ensures Valid() && keys == old(keys) && values == old(values)
      ensures Value() == old(Value()) + multiset{cb.rep(key)}
      ensures used == old(used) + 1 && Stores(cb.retain(key))
    {
      var newKey := cb.retain(key);
      ghost var t0 := T();
      DodgeMarker(newKey);
      FreeAfterRename(t0, T(), cb, key, slot);
      SimilarKeepsTable(t0, T(), cb);
      Occupy(slot, newKey);
    }

    method Occupy(slot: int, key: Word)
      requires Valid() && used < cap && !Found(T(), cb, key) && FirstFree(T(), cb, key, slot)
      requires !IsMagic(marker, key)
      modifies this, keys, values
      ensures Valid() && keys == old(keys) && values == old(values)
      ensures Value() == old(Value()) + multiset{cb.rep(key)}
      ensures used == old(used) + 1 && Stores(key)
    {
      InsertEffect(T(), cb, slot, key);
      if keys[slot] == Complement(marker) {
        deletes := deletes - 1;
      }
      WriteSlot(slot, key, 1);
      used := used + 1;
      count := count + 1;
      assert Live(T(), slot);
    }

    /** Puts a new key of the same class in an occupied slot, by way of a deleted slot. */
    method RekeyAt(slot: int, key: Word)
      requires Valid() && Holds(T(), cb, key, slot)
      modifies this`marker, keys
      ensures Valid() && Value() == old(Value()) && Stores(cb.retain(key))
    {
      var newKey := cb.retain(key);
      ghost var t0 := T();
      keys[slot] := Complement(marker);
      ghost var t1 := T();
      assert IsMagic(marker, keys[slot]);
      DodgeMarker(newKey);
      ghost var t2 := T();
      keys[slot] := newKey;
      ghost var t3 := T();
      assert t1 == t0.(keys := t0.keys[slot := Complement(t0.marker)]);
      assert t3 == t2.(keys := t2.keys[slot := newKey]);
      RekeySimilar(t0, t1, t2, t3, cb, slot, newKey);
      SimilarKeepsTable(t0, t3, cb);
      assert Live(t3, slot);
    }

    /** Below capacity an insertion probe always ends at the key or at a usable slot, empty slots or not. */
    method Probe(key: Word) returns (match_: int, nomatch: int)
      requires Valid() && keys.Length > 0 && used < cap
      ensures match_ == NOT_FOUND ==> !Found(T(), cb, key) && FirstFree(T(), cb, key, nomatch)
      ensures match_ != NOT_FOUND ==> Holds(T(), cb, key, match_)
      ensures match_ == NOT_FOUND <==> cb.rep(key) !in Value()
    {
      SomeFree(T());
      match_, nomatch := FindBuckets2(key);
      if match_ == NOT_FOUND {
        ContentsNotFound(T(), cb, key);
      } else {
        ContentsAt(T(), cb, key, match_);
      }
    }

    method AddValue(key: Word)
      requires Valid() && (used < cap || 2 * keys.Length <= MAX_BUCKETS)
      modifies this, keys, values
      ensures Valid() && ((keys == old(keys) && values == old(values)) || (fresh(keys) && fresh(values)))
      ensures Value() == Apply(old(Value()), cb, Add(key))
      ensures used <= old(used) + 1
    {
      MakeRoom();
      var match_, nomatch := Probe(key);
      if match_ != NOT_FOUND {
        BumpAt(match_, key);
      } else {
        InsertAt(nomatch, key);
      }
    }

    method BumpAt(slot: int, key: Word)
      requires Valid() && Holds(T(), cb, key, slot)
      modifies this`count, values
      ensures Valid() && Value() == old(Value()) + multiset{cb.rep(key)}
    {
      ghost var t := T();
      RecountKeepsTable(t, cb, slot, t.vals[slot] + 1);
      ContentsAt(t, cb, key, slot);
      values[slot] := values[slot] + 1;
      count := count + 1;
      assert T() == t.(vals := t.vals[slot := t.vals[slot] + 1]);
    }

    method SetValue(key: Word)
      requires Valid() && (used < cap || 2 * keys.Length <= MAX_BUCKETS)
      modifies this, keys, values
      ensures Valid() && ((keys == old(keys) && values == old(values)) || (fresh(keys) && fresh(values)))
      ensures Value() == Apply(old(Value()), cb, Set(key)) && Stores(cb.retain(key))
      ensures used <= old(used) + 1
    {
      MakeRoom();
      var match_, nomatch := Probe(key);
      if match_ == NOT_FOUND {
        InsertAt(nomatch, key);
      } else {
        RekeyAt(match_, key);
      }
    }

    method ReplaceValue(key: Word)
      requires Valid()
      modifies this`marker, keys
      ensures Valid() && used == old(used) && Value() == Apply(old(Value()), cb, Replace(key))
      ensures cb.rep(key) in Value() ==> Stores(cb.retain(key))
    {
      var slot := Locate(key);
      if slot == NOT_FOUND {
        return;
      }
      RekeyAt(slot, key);
    }

    method RemoveValue(key: Word)
      requires Valid()
      modifies this, keys, values
      ensures Valid() && ((keys == old(keys) && values == old(values)) || (fresh(keys) && fresh(values)))
      ensures Value() == Apply(old(Value()), cb, Remove(key))
      ensures used <= old(used)
    {
      var slot := Locate(key);
      if slot == NOT_FOUND {
        return;
      }
      if 1 < values[slot] {
        DropAt(slot, key);
      } else {
        Discard(slot, key);
      }
    }

    /** Removes the last occurrence of a key, then shrinks the store or tidies the slots below. */
    method Discard(slot: int, key: Word)
      requires Valid() && Holds(T(), cb, key, slot) && values[slot] == 1
      modifies this, keys, values
      ensures Valid() && ((keys == old(keys) && values == old(values)) || (fresh(keys) && fresh(values)))
      ensures Value() == old(Value()) - multiset{cb.rep(key)} && used == old(used) - 1
      ensures !ShouldShrink()
    {
      DeleteAt(slot, key);
      if ShouldShrink() {
        Shrink(0);
      } else {
        Reclaim(slot);
      }
    }

    method DropAt(slot: int, key: Word)
      requires Valid() && Holds(T(), cb, key, slot) && values[slot] > 1
      modifies this`count, values
      ensures Valid() && values == old(values) && Value() == old(Value()) - multiset{cb.rep(key)}
    {
      ghost var t := T();
      RecountKeepsTable(t, cb, slot, t.vals[slot] - 1);
      ContentsAt(t, cb, key, slot);
      values[slot] := values[slot] - 1;
      count := count - 1;
      assert T() == t.(vals := t.vals[slot := t.vals[slot] - 1]);
    }

    /** Turns the slot of a key that occurs once into a deleted one. */
    method DeleteAt(slot: int, key: Word)
      requires Valid() && Holds(T(), cb, key, slot) && values[slot] == 1
      modifies this`count, this`used, this`deletes, keys, values
      ensures Accounted() && Value() == old(Value()) - multiset{cb.rep(key)}
      ensures used == old(used) - 1 && keys[slot] == Complement(marker)
    {
      DeleteEffect(T(), cb, slot);
      WriteSlot(slot, Complement(marker), 0);
      count := count - 1;
      used := used - 1;
      deletes := deletes + 1;
    }

    method ReclaimOne(i: int)
      requires Valid() && 0 <= i < keys.Length - 1 && keys[i] == Complement(marker) && keys[i + 1] == marker
      modifies this`deletes, keys
      ensures Valid() && Value() == old(Value()) && deletes == old(deletes) - 1
      ensures keys[..] == old(keys[..])[i := marker]
    {
      ghost var t := T();
      ReclaimKeepsTable(t, cb, i);
      StoreCounts(t, i, marker, t.vals[i]);
      assert t.vals[i := t.vals[i]] == t.vals;
      keys[i] := marker;
      deletes := deletes - 1;
      assert T() == t.(keys := t.keys[i := marker]);
    }

    /** Empties the whole run of deleted slots that ends just below an empty slot, and nothing else. */
    method Reclaim(slot: int)
      requires Valid() && 0 <= slot < keys.Length
      modifies this`deletes, keys
      ensures Valid() && Value() == old(Value()) && deletes <= old(deletes)
      ensures if slot < keys.Length - 1 && old(keys[slot + 1]) == marker
              then exists lo :: RunCleared(old(keys[..]), keys[..], marker, lo, slot)
              else keys[..] == old(keys[..])
    {
      if slot < keys.Length - 1 && keys[slot + 1] == marker {
        var i := slot;
        while 0 <= i && keys[i] == Complement(marker)
          invariant -1 <= i <= slot && keys[i + 1] == marker
          invariant Valid() && Value() == old(Value()) && deletes <= old(deletes)
          invariant forall j :: 0 <= j < keys.Length ==>
                      if i < j <= slot then old(keys[j]) == Complement(marker) && keys[j] == marker
                      else keys[j] == old(keys[j])
        {
          ReclaimOne(i);
          i := i - 1;
        }
        assert RunCleared(old(keys[..]), keys[..], marker, i, slot);
      }
    }

    method RemoveAllValues()
      requires Valid()
      modifies this, keys, values
      ensures Valid() && ((keys == old(keys) && values == old(values)) || (fresh(keys) && fresh(values)))
      ensures Value() == Apply(old(Value()), cb, RemoveAll)
      ensures used == 0 && (old(used) > 0 ==> !ShouldShrink())
    {
      if used == 0 {
        UnusedIsEmpty(T(), cb);
        return;
      }
      ClearAll();
      if ShouldShrink() && 256 <= cap {
        Shrink(128);
      }
    }

    /** Clears the store and its counters. */
    method ClearAll()
      requires Valid() && keys.Length > 0
      modifies this`count, this`used, this`deletes, keys, values
      ensures Valid() && Value() == multiset{} && used == deletes == 0
    {
      ClearSlots();
      deletes, used, count := 0, 0, 0;
    }

    /** The two clearing passes: live slots are deleted one by one, then every slot is emptied. */
    method ClearSlots()
      requires Shape()
      modifies this`count, this`used, this`deletes, keys, values
      ensures Shape() && Value() == multiset{} && Used(T()) == Deleted(T()) == 0
    {
      for idx := 0 to keys.Length
        invariant forall i :: 0 <= i < idx ==> values[i] == 0
        invariant forall i :: idx <= i < keys.Length ==> keys[i] == old(keys[i]) && values[i] == old(values[i])
      {
        if !IsMagic(marker, keys[idx]) {
          count := count - values[idx];
          keys[idx] := Complement(marker);
          values[idx] := 0;
          used := used - 1;
          deletes := deletes + 1;
        } else {
          assert !Live(old(T()), idx);
        }
      }
      for idx := 0 to keys.Length
        invariant forall i :: 0 <= i < keys.Length ==> values[i] == 0
        invariant forall i :: 0 <= i < idx ==> keys[i] == marker
      {
        keys[idx] := marker;
      }
      BlankTable(T(), cb);
    }

    /** Whether two bags with the same equality callback hold the same multiset. */
    static method Equals(a: Bag, b: Bag) returns (same: bool)
      requires a.Valid() && b.Valid() && a.cb.rep == b.cb.rep
      ensures same <==> a.Value() == b.Value()
    {
      if a == b {
        return true;
      }
      if a.count != b.count {
        return false;
      }
      ghost var t := a.T();
      if a.used == 0 {
        OccurrencesPair(t.keys, t.marker, Complement(t.marker));
        EqualFromPart(t, b.Value(), a.cb);
        return true;
      }
      var idx := 0;
      while idx < a.keys.Length
        invariant 0 <= idx <= a.keys.Length
        invariant forall i :: 0 <= i < idx && Live(t, i) ==> t.vals[i] == b.Value()[a.cb.rep(t.keys[i])]
      {
        if !IsMagic(a.marker, a.keys[idx]) {
          var n := b.GetCountOfValue(a.keys[idx]);
          ContentsAt(t, a.cb, t.keys[idx], idx);
          if a.values[idx] != n {
            return false;
          }
        }
        idx := idx + 1;
      }
      EqualFromPart(t, b.Value(), a.cb);
      return true;
    }

    method Perform(op: Op)
      requires Valid() && (used < cap || 2 * keys.Length <= MAX_BUCKETS)
      modifies this, keys, values
      ensures Valid() && ((keys == old(keys) && values == old(values)) || (fresh(keys) && fresh(values)))
      ensures Value() == Apply(old(Value()), cb, op)
      ensures used <= old(used) + 1
    {
      match op
      case Add(k) => AddValue(k);
      case Set(k) => SetValue(k);
      case Replace(k) => ReplaceValue(k);
      case Remove(k) => RemoveValue(k);
      case RemoveAll => RemoveAllValues();
    }

    /** Few enough classes of keys leave room to grow. */
    lemma CanGrow()
      requires Valid() && Holdable(Value())
      ensures used < cap || 2 * keys.Length <= MAX_BUCKETS
    {
      UsedIsClasses(T(), cb, keys.Length);
      assert T().keys[..keys.Length] == T().keys && T().vals[..keys.Length] == T().vals;
    }

    /** Every run of operations on a new bag ends with the multiset of the abstract machine. */
    static method Run(cb: CallBacks, ops: seq<Op>) returns (bag: Bag)
      requires cb.Lawful() && forall i :: 0 <= i < |ops| ==> Holdable(ApplyAll(cb, ops[..i]))
      ensures fresh(bag) && bag.Valid() && bag.cb == cb && bag.Value() == ApplyAll(cb, ops)
    {
      bag := new Bag(cb);
      for i := 0 to |ops|
        invariant fresh(bag) && fresh(bag.keys) && fresh(bag.values) && bag.Valid() && bag.cb == cb
        invariant bag.Value() == ApplyAll(cb, ops[..i])
      {
        assert ops[..i + 1][..i] == ops[..i];
        bag.CanGrow();
        bag.Perform(ops[i]);
      }
      assert ops[..|ops|] == ops;
    }
  }
}
