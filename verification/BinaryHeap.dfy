/** CFBinaryHeap: a heap that adds by moving a hole up and removes by moving a hole down. */
module BinaryHeap {
  import opened Bits
  import opened Items
  import opened HeapOrder

  function RoundUpCapacity(capacity: nat): nat {
    if capacity < 4 then 4 else Pow2(Flsl(capacity))
  }

  lemma RoundUpEnough(capacity: nat)
    ensures capacity <= RoundUpCapacity(capacity) && 4 <= RoundUpCapacity(capacity)
  {
    FlslBounds(capacity);
  }

  /** The buckets with the hole filled. */
  ghost predicate Around(k: seq<Item>, s: seq<Item>, h: nat) {
    && h < |s| <= |k|
    && forall i :: 0 <= i < |s| && i != h ==> k[i] == s[i]
  }

  lemma AroundMoved(k: seq<Item>, s: seq<Item>, h: nat, h': nat)
    requires Around(k, s, h) && h' < |s| && h != h'
    ensures Around(k[h := k[h']], Swap(s, h, h'), h')
  {
  }

  lemma AroundFilled(k: seq<Item>, s: seq<Item>, h: nat)
    requires Around(k, s, h)
    ensures k[h := s[h]][..|s|] == s
  {
  }

  /** Appending in the hole at the end keeps the order above it. */
  lemma AddedLast(cmp: Comparator, s: seq<Item>, v: Item)
    requires Ordered(cmp, s)
    ensures OrderedAbove(cmp, s + [v], |s|) && multiset(s + [v]) == multiset(s) + multiset{v}
  {
  }

  /** Taking the last item for the first keeps the order below it. */
  lemma RemovedFirst(cmp: Comparator, s: seq<Item>)
    requires Ordered(cmp, s) && 1 < |s|
    ensures var t := [s[|s| - 1]] + s[1..|s| - 1];
      OrderedBelow(cmp, t, 0) && multiset(t) == multiset(s) - multiset{s[0]}
  {
    var n := |s| - 1;
    var t := [s[n]] + s[1..n];
    forall i | 0 < i < |t| && Parent(i) != 0 ensures Le(cmp, t[Parent(i)], t[i]) {
      assert t[i] == s[i] && t[Parent(i)] == s[Parent(i)];
    }
    assert s == [s[0]] + s[1..n] + [s[n]];
  }

  class BinaryHeap {
    const cmp: Comparator
    var count: nat
    var buckets: array<Item>        // of the capacity

    ghost predicate Valid()
      reads this, buckets
    {
      count <= buckets.Length && 4 <= buckets.Length && Ordered(cmp, buckets[..count])
    }

    ghost function Items(): seq<Item>
      reads this, buckets
      requires count <= buckets.Length
    {
      buckets[..count]
    }

    constructor (cmp: Comparator)
      ensures Valid() && fresh(buckets) && this.cmp == cmp && Items() == []
    {
      this.cmp, count := cmp, 0;
      buckets := new Item[4];
    }

    /** Moves to a larger array; the items stay where they are. */
    method Grow(numNewValues: nat)
      requires count == buckets.Length
      modifies this`buckets
      ensures fresh(buckets) && count + numNewValues <= buckets.Length && 4 <= buckets.Length
      ensures buckets[..count] == old(buckets[..count])
    {
      RoundUpEnough(count + numNewValues);
      buckets := Enlarged(buckets, RoundUpCapacity(count + numNewValues));
    }

    /** Adds one value, and nothing else. */
    method AddValue(value: Item)
      requires Valid() && Lawful(cmp)
      modifies this, buckets
      ensures Valid() && (buckets == old(buckets) || fresh(buckets))
      ensures count == old(count) + 1 && multiset(Items()) == old(multiset(Items())) + multiset{value}
    {
      if count == buckets.Length {
        Grow(1);
      }
      count := count + 1;
      AddLast(buckets, cmp, count - 1, value);
    }

    /** Removes a least value, if there is any. */
    method RemoveMinimumValue()
      requires Valid() && Lawful(cmp)
      modifies this`count, buckets
      ensures Valid()
      ensures old(count) == 0 ==> Items() == old(Items())
      ensures old(count) != 0 ==>
        && count == old(count) - 1
        && multiset(Items()) == old(multiset(Items())) - multiset{old(Items())[0]}
        && forall b :: b in old(Items()) ==> Le(cmp, old(Items())[0], b)
    {
      if count == 0 {
        return;
      }
      FirstIsLeast(cmp, Items());
      count := count - 1;
      FillFirst(buckets, cmp, count);
    }

    /** A least item, or the null item if there is none. */
    method GetMinimum() returns (v: Item)
      requires Valid() && Lawful(cmp)
      ensures count == 0 ==> v == NIL
      ensures 0 < count ==> v == Items()[0] && forall b :: b in Items() ==> Le(cmp, v, b)
    {
      v := NIL;
      if 0 < count {
        v := buckets[0];
        FirstIsLeast(cmp, Items());
      }
    }

    method RemoveAllValues()
      requires Valid()
      modifies this`count
      ensures Valid() && Items() == []
    {
      count := 0;
    }

    /** A new heap, to which the items are added one after the other. */
    method CreateCopy() returns (h: BinaryHeap)
      requires Valid() && Lawful(cmp)
      ensures fresh(h) && fresh(h.buckets) && h.cmp == cmp && h.Valid()
      ensures h.count == count && multiset(h.Items()) == multiset(Items())
    {
      h := new BinaryHeap(cmp);
      for idx := 0 to count
        invariant fresh(h) && fresh(h.buckets) && h.cmp == cmp && h.Valid() && h.count == idx
        invariant multiset(h.Items()) == multiset(buckets[..idx])
      {
        assert buckets[..idx + 1] == buckets[..idx] + [buckets[idx]];
        h.AddValue(buckets[idx]);
      }
    }

    /** The items in ascending order; the heap does not change. */
    method GetValues(values: array<Item>)
      requires Valid() && Lawful(cmp) && values != buckets && count <= values.Length
      modifies values
      ensures Ascending(cmp, values[..count]) && multiset(values[..count]) == multiset(Items())
      ensures values[count..] == old(values[count..])
    {
      if count == 0 {
        return;
      }
      var h := CreateCopy();
      Drain(h, values);
    }

    /** Takes out a least item. */
    method TakeMinimum() returns (v: Item)
      requires Valid() && Lawful(cmp) && 0 < count
      modifies this`count, buckets
      ensures Valid() && count == old(count) - 1
      ensures Extracts(cmp, v, old(multiset(Items())), multiset(Items()))
    {
      v := GetMinimum();
      RemoveMinimumValue();
    }

    method TakeNext(ghost done: seq<Item>, ghost all: multiset<Item>) returns (v: Item)
      requires Valid() && Lawful(cmp) && 0 < count && Split(cmp, done, multiset(Items()), all)
      modifies this`count, buckets
      ensures Valid() && count == old(count) - 1
      ensures Split(cmp, done + [v], multiset(Items()), all)
    {
      ghost var m := multiset(Items());
      v := TakeMinimum();
      Extracted(cmp, done, v, m, multiset(Items()), all);
    }

    /** Moves a least item to the end of those already in the array. */
    static method DrainNext(h: BinaryHeap, values: array<Item>, idx: nat,
                            ghost done: seq<Item>, ghost all: multiset<Item>)
        returns (ghost value: Item)
      requires h.Valid() && Lawful(h.cmp) && values != h.buckets && 0 < h.count && idx < values.Length
      requires Split(h.cmp, done, multiset(h.Items()), all)
      modifies h`count, h.buckets, values
      ensures h.Valid() && h.count == old(h.count) - 1 && Split(h.cmp, done + [value], multiset(h.Items()), all)
      ensures values[idx] == value && forall i :: 0 <= i < values.Length && i != idx ==> values[i] == old(values[i])
    {
      var v := h.TakeNext(done, all);
      values[idx] := v;
      value := v;
    }

    /** Empties a heap into an array, least first. */
    static method Drain(h: BinaryHeap, values: array<Item>)
      requires h.Valid() && Lawful(h.cmp) && values != h.buckets && h.count <= values.Length
      modifies h`count, h.buckets, values
      ensures var n := old(h.count);
        Ascending(h.cmp, values[..n]) && multiset(values[..n]) == old(multiset(h.Items()))
      ensures values[old(h.count)..] == old(values[h.count..])
    {
      var idx := 0;
      ghost var n, done, all := h.count, [], multiset(h.Items());
      while 0 < h.count
        invariant h.Valid() && idx == |done| && idx + h.count == n
        invariant Split(h.cmp, done, multiset(h.Items()), all)
        invariant forall i :: 0 <= i < idx ==> values[i] == done[i]
        invariant forall i :: n <= i < values.Length ==> values[i] == old(values[i])
        decreases h.count
      {
        ghost var value := DrainNext(h, values, idx, done, all);
        done := done + [value];
        idx := idx + 1;
      }
      Emptied(h.cmp, done, h.Items(), all);
      assert values[..n] == done;
    }
  }

  /** v is a least item of m, and m' is the rest. */
  ghost predicate Extracts(cmp: Comparator, v: Item, m: multiset<Item>, m': multiset<Item>) {
    v in m && m' == m - multiset{v} && Below(cmp, v, m)
  }

  /** All the items, in order as far as they were taken out, and none of the others below those. */
  ghost predicate Split(cmp: Comparator, done: seq<Item>, m: multiset<Item>, all: multiset<Item>) {
    && Ascending(cmp, done) && multiset(done) + m == all
    && forall i :: 0 <= i < |done| ==> Below(cmp, done[i], m)
  }

  /** A least item goes behind those already taken. */
  lemma Extracted(cmp: Comparator, done: seq<Item>, v: Item, m: multiset<Item>, m': multiset<Item>, all: multiset<Item>)
    requires Lawful(cmp) && Split(cmp, done, m, all) && Extracts(cmp, v, m, m')
    ensures Split(cmp, done + [v], m', all)
  {
    LeTotal(cmp, v, v);
  }

  lemma Emptied(cmp: Comparator, done: seq<Item>, rest: seq<Item>, all: multiset<Item>)
    requires Split(cmp, done, multiset(rest), all) && rest == []
    ensures Ascending(cmp, done) && multiset(done) == all
  {
  }

  lemma FirstIsLeast(cmp: Comparator, s: seq<Item>)
    requires Lawful(cmp) && Ordered(cmp, s) && s != []
    ensures forall b :: b in s ==> Le(cmp, s[0], b)
  {
    forall b | b in s ensures Le(cmp, s[0], b) {
      var i :| 0 <= i < |s| && s[i] == b;
      RootIsLeast(cmp, s, i);
    }
  }

  method Enlarged(a: array<Item>, capacity: nat) returns (b: array<Item>)
    requires a.Length <= capacity
    ensures fresh(b) && b.Length == capacity && b[..a.Length] == a[..]
  {
    b := new Item[capacity];
    forall i | 0 <= i < a.Length {
      b[i] := a[i];
    }
  }

  /** Moves the hole at the end up past greater items and fills it with the value. */
  method SiftUp(k: array<Item>, cmp: Comparator, at: nat, value: Item, ghost start: seq<Item>)
    requires Lawful(cmp) && at < k.Length && |start| == at + 1 && start[at] == value
    requires Around(k[..], start, at) && OrderedAbove(cmp, start, at)
    modifies k
    ensures Ordered(cmp, k[..at + 1]) && multiset(k[..at + 1]) == multiset(start)
  {
    var idx: nat := at;
    ghost var s := start;
    while 0 < idx
      invariant idx < |s| == at + 1 && s[idx] == value && multiset(s) == multiset(start)
      invariant Around(k[..], s, idx) && OrderedAbove(cmp, s, idx)
    {
      var pidx := Parent(idx);
      var item := k[pidx];
      if !Greater(cmp, item, value) {
        break;
      }
      SiftUpStep(cmp, s, idx);
      SwapKeepsItems(s, idx, pidx);
      AroundMoved(k[..], s, idx, pidx);
      s := Swap(s, idx, pidx);
      k[idx] := item;
      idx := pidx;
    }
    SiftUpDone(cmp, s, idx);
    AroundFilled(k[..], s, idx);
    k[idx] := value;
  }

  /** Adds a value to the first n buckets. */
  method AddLast(k: array<Item>, cmp: Comparator, n: nat, value: Item)
    requires Lawful(cmp) && n < k.Length && Ordered(cmp, k[..n])
    modifies k
    ensures Ordered(cmp, k[..n + 1]) && multiset(k[..n + 1]) == old(multiset(k[..n])) + multiset{value}
  {
    AddedLast(cmp, k[..n], value);
    SiftUp(k, cmp, n, value, k[..n] + [value]);
  }

  /** Takes the first of n + 1 buckets away; the last one goes where it now belongs. */
  method FillFirst(k: array<Item>, cmp: Comparator, n: nat)
    requires Lawful(cmp) && n < k.Length && Ordered(cmp, k[..n + 1])
    modifies k
    ensures Ordered(cmp, k[..n]) && multiset(k[..n]) == old(multiset(k[..n + 1])) - multiset{old(k[0])}
  {
    var val := k[n];
    ghost var s := k[..n + 1];
    if 0 < n {
      RemovedFirst(cmp, s);
      SiftDown(k, cmp, n, val, [val] + s[1..n]);
    } else {
      assert s == [val];
      k[0] := val;
    }
  }

  /** The least of a pair of children, or the only one. */
  method ChooseChild(k: array<Item>, cmp: Comparator, n: nat, idx: nat, ghost s: seq<Item>) returns (cidx: nat)
    requires Lawful(cmp) && 2 * idx + 1 < n == |s| && Around(k[..], s, idx)
    ensures LeastChild(cmp, s, idx, cidx)
  {
    cidx := 2 * idx + 1;
    LeTotal(cmp, k[cidx], k[cidx]);
    if cidx + 1 < n && Greater(cmp, k[cidx], k[cidx + 1]) {
      LeTotal(cmp, k[cidx], k[cidx + 1]);
      cidx := cidx + 1;
      LeTotal(cmp, k[cidx], k[cidx]);
    }
    assert forall i :: 0 < i < |s| && Parent(i) == idx ==> i == 2 * idx + 1 || i == 2 * idx + 2;
  }

  /** Moves the hole at the front down past items that are not greater and fills it with the value. */
  method SiftDown(k: array<Item>, cmp: Comparator, n: nat, val: Item, ghost start: seq<Item>)
    requires Lawful(cmp) && 0 < n == |start| && n <= k.Length && start[0] == val
    requires Around(k[..], start, 0) && OrderedBelow(cmp, start, 0)
    modifies k
    ensures Ordered(cmp, k[..n]) && multiset(k[..n]) == multiset(start)
  {
    var idx := 0;
    var cidx := 1;
    ghost var s := start;
    while cidx < n
      invariant idx < |s| == n && cidx == 2 * idx + 1 && s[idx] == val && multiset(s) == multiset(start)
      invariant Around(k[..], s, idx) && OrderedBelow(cmp, s, idx)
      decreases n - idx
    {
      cidx := ChooseChild(k, cmp, n, idx, s);
      var item := k[cidx];
      if Greater(cmp, item, val) {
        break;
      }
      SiftDownStep(cmp, s, idx, cidx);
      SwapKeepsItems(s, idx, cidx);
      AroundMoved(k[..], s, idx, cidx);
      s := Swap(s, idx, cidx);
      k[idx] := item;
      idx := cidx;
      cidx := 2 * idx + 1;
    }
    SiftDownDone(cmp, s, idx, cidx);
    AroundFilled(k[..], s, idx);
    k[idx] := val;
  }
}
