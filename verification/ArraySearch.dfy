/**
  CFArrayBSearchValues on a store-backed array: the power-of-two binary search.
*/
module ArraySearch {
  import opened Bits
  import opened Items
  import opened MutableArray

  /** The comparator orders items: its sign is antisymmetric and "not after" is transitive. */
  ghost predicate Lawful(cmp: Comparator) {
    && (forall a, b :: cmp(a, b) < 0 <==> 0 < cmp(b, a))
    && (forall a, b, c :: cmp(a, b) <= 0 && cmp(b, c) <= 0 ==> cmp(a, c) <= 0)
  }

  ghost predicate Sorted(cmp: Comparator, items: seq<Item>, loc: nat, len: nat)
    requires loc + len <= |items|
  {
    forall i, j :: loc <= i <= j < loc + len ==> cmp(items[i], items[j]) <= 0
  }

  /** The least index from loc on whose item is not less than the value; the end of the range if there is none. */
  ghost predicate InsertionPoint(cmp: Comparator, items: seq<Item>, loc: nat, len: nat, value: Item, p: int)
    requires loc + len <= |items|
  {
    && loc <= p <= loc + len
    && (forall i :: loc <= i < p ==> cmp(items[i], value) < 0)
    && (forall i :: p <= i < loc + len ==> 0 <= cmp(items[i], value))
  }

  /** The largest power of two that is not more than the length. */
  function Stride(len: nat): (n: nat)
    requires 0 < len
    ensures 0 < n <= len < 2 * n && exists k: nat :: n == Pow2(k)
  {
    FlslBounds(len);
    Pow2(Flsl(len) - 1)
  }

  /**
    When the search of a range at loc finds the insertion point. At location 0
    it always does. At any other location the first comparison is lost, because
    the location is read as part of the condition and not of the result.
  */
  ghost predicate Finds(cmp: Comparator, items: seq<Item>, loc: nat, len: nat, value: Item)
    requires loc + len <= |items|
  {
    || loc == 0 || len == 0
    || cmp(items[loc + len - 1], value) < 0 || cmp(value, items[loc]) < 0
    || cmp(items[loc + len - Stride(len)], value) < 0
  }

  /** A sorted range has an insertion point; it is where the range starts if the value is before all of it. */
  lemma {:induction false} InsertionPointExists(cmp: Comparator, items: seq<Item>, loc: nat, len: nat, value: Item)
      returns (p: nat)
    requires loc + len <= |items| && Lawful(cmp) && Sorted(cmp, items, loc, len)
    ensures InsertionPoint(cmp, items, loc, len, value, p)
    ensures 0 < len && cmp(value, items[loc]) < 0 ==> p == loc
    decreases len
  {
    if len == 0 {
      p := loc;
    } else if 0 <= cmp(items[loc], value) {
      p := loc;
      forall i | loc <= i < loc + len ensures 0 <= cmp(items[i], value) {
        assert cmp(items[loc], items[i]) <= 0;
      }
    } else {
      p := InsertionPointExists(cmp, items, loc + 1, len - 1, value);
    }
  }

  /** There is one insertion point at most. */
  lemma InsertionPointUnique(cmp: Comparator, items: seq<Item>, loc: nat, len: nat, value: Item, p: int, q: int)
    requires loc + len <= |items|
    requires InsertionPoint(cmp, items, loc, len, value, p) && InsertionPoint(cmp, items, loc, len, value, q)
    ensures p == q
  {
    assert p < loc + len ==> 0 <= cmp(items[p], value);
    assert q < loc + len ==> 0 <= cmp(items[q], value);
  }

  /** The loop: it adds to idx the power of two wherever the item there is still less. */
  method Narrow(a: CFArray, loc: nat, len: nat, value: Item, cmp: Comparator, start: int, top: nat, ghost p: nat)
      returns (idx: int)
    requires a.Valid() && a.rep.Storage? && loc + len <= a.count
    requires InsertionPoint(cmp, a.store, loc, len, value, p)
    requires -1 <= start && start + Pow2(top) <= len && p <= loc + start + Pow2(top)
    ensures idx == if loc + start < p then p - loc - 1 else start
  {
    idx := start;
    var lg := top;
    while 0 < lg
      invariant -1 <= idx && idx + Pow2(lg) <= len
      invariant if loc + start < p then loc + idx < p <= loc + idx + Pow2(lg) else idx == start
    {
      lg := lg - 1;
      var item := a.GetValueAtIndex(loc + idx + Pow2(lg));
      if cmp(item, value) < 0 {
        idx := idx + Pow2(lg);
      }
    }
  }

  /** The result is the insertion point exactly when Finds; otherwise it lies beyond it, one past the first stride. */
  method BSearchValues(a: CFArray, loc: nat, len: nat, value: Item, cmp: Comparator) returns (idx: int)
    requires a.Valid() && a.rep.Storage? && loc + len <= a.count
    requires Lawful(cmp) && Sorted(cmp, a.store, loc, len)
    ensures InsertionPoint(cmp, a.store, loc, len, value, idx) <==> Finds(cmp, a.store, loc, len, value)
    ensures !Finds(cmp, a.store, loc, len, value) ==> idx == loc + len - Stride(len) + 1
  {
    ghost var p := InsertionPointExists(cmp, a.store, loc, len, value);
    idx := SearchRange(a, loc, len, value, cmp, p);
    if InsertionPoint(cmp, a.store, loc, len, value, idx) {
      InsertionPointUnique(cmp, a.store, loc, len, value, p, idx);
    }
  }

  method SearchRange(a: CFArray, loc: nat, len: nat, value: Item, cmp: Comparator, ghost p: nat) returns (idx: int)
    requires a.Valid() && a.rep.Storage? && loc + len <= a.count
    requires InsertionPoint(cmp, a.store, loc, len, value, p)
    requires 0 < len && cmp(value, a.store[loc]) < 0 ==> p == loc
    ensures Finds(cmp, a.store, loc, len, value) ==> idx == p
    ensures !Finds(cmp, a.store, loc, len, value) ==> p < idx == loc + len - Stride(len) + 1
  {
    if len == 0 {
      return loc;
    }
    var item := a.GetValueAtIndex(loc + len - 1);
    if cmp(item, value) < 0 {
      return loc + len;
    }
    item := a.GetValueAtIndex(loc);
    if cmp(value, item) < 0 {
      return loc;
    }
    FlslBounds(len);
    var lg := Flsl(len) - 1;
    item := a.GetValueAtIndex(loc - 1 + Pow2(lg));
    var found := if cmp(item, value) < 0 then 1 else 0;
    idx := if loc + found != 0 then len - Pow2(lg) else -1;
    idx := Narrow(a, loc, len, value, cmp, idx, lg, p);
    idx := idx + 1 + loc;
  }

  /** The search misplaces a value equal to the only item of a range that does not start at 0. */
  method MisplacedValue(a: CFArray, cmp: Comparator) returns (idx: int)
    requires a.Valid() && a.rep.Storage? && Lawful(cmp)
    ensures idx == 2
    ensures InsertionPoint(cmp, a.store, 1, 1, a.store[1], 1)
  {
    assert cmp(a.store[1], a.store[1]) == 0;
    idx := BSearchValues(a, 1, 1, a.store[1], cmp);
  }
}
