/** The order of a binary heap laid out in a sequence, and what moving a hole up or down does to it. */
module HeapOrder {
  import opened Items

  const GREATER_THAN := 1

  /** The comparator is a total preorder and answers -1, 0 or 1 only. */
  ghost predicate Lawful(cmp: Comparator) {
    && (forall a, b :: Antisymmetric(cmp, a, b))
    && (forall a, b, c :: Transitive(cmp, a, b, c))
  }

  predicate Antisymmetric(cmp: Comparator, a: Item, b: Item) {
    -1 <= cmp(a, b) <= 1 && cmp(a, b) == -cmp(b, a)
  }

  predicate Transitive(cmp: Comparator, a: Item, b: Item, c: Item) {
    cmp(a, b) <= 0 && cmp(b, c) <= 0 ==> cmp(a, c) <= 0
  }

  predicate Greater(cmp: Comparator, a: Item, b: Item) {
    cmp(a, b) == GREATER_THAN
  }

  predicate Le(cmp: Comparator, a: Item, b: Item) {
    !Greater(cmp, a, b)
  }

  function Parent(i: nat): nat {
    if i == 0 then 0 else (i - 1) / 2
  }

  /** No item is less than its parent. */
  ghost predicate Ordered(cmp: Comparator, s: seq<Item>) {
    forall i :: 0 < i < |s| ==> Le(cmp, s[Parent(i)], s[i])
  }

  /** Ordered but for the item at h, which may be less than those above it. */
  ghost predicate OrderedAbove(cmp: Comparator, s: seq<Item>, h: nat) {
    && h < |s|
    && (forall i :: 0 < i < |s| && i != h ==> Le(cmp, s[Parent(i)], s[i]))
    && (forall i :: 0 < i < |s| && Parent(i) == h && 0 < h ==> Le(cmp, s[Parent(h)], s[i]))
  }

  /** Ordered but for the item at h, which may be greater than those below it. */
  ghost predicate OrderedBelow(cmp: Comparator, s: seq<Item>, h: nat) {
    && h < |s|
    && (forall i :: 0 < i < |s| && Parent(i) != h ==> Le(cmp, s[Parent(i)], s[i]))
    && (forall i :: 0 < i < |s| && Parent(i) == h && 0 < h ==> Le(cmp, s[Parent(h)], s[i]))
  }

  function Swap(s: seq<Item>, i: nat, j: nat): (t: seq<Item>)
    requires i < |s| && j < |s|
    ensures |t| == |s|
  {
    s[i := s[j]][j := s[i]]
  }

  lemma SwapKeepsItems(s: seq<Item>, i: nat, j: nat)
    requires i < |s| && j < |s|
    ensures multiset(Swap(s, i, j)) == multiset(s)
  {
  }

  lemma LeTransitive(cmp: Comparator, a: Item, b: Item, c: Item)
    requires Lawful(cmp) && Le(cmp, a, b) && Le(cmp, b, c)
    ensures Le(cmp, a, c)
  {
    assert Transitive(cmp, a, b, c) && Antisymmetric(cmp, a, b) && Antisymmetric(cmp, b, c);
  }

  lemma LeTotal(cmp: Comparator, a: Item, b: Item)
    requires Lawful(cmp)
    ensures Le(cmp, a, b) || Le(cmp, b, a)
  {
    assert Antisymmetric(cmp, a, b);
  }

  /** Where the parent is greater, it and the item change places. */
  lemma SiftUpStep(cmp: Comparator, s: seq<Item>, h: nat)
    requires Lawful(cmp) && OrderedAbove(cmp, s, h) && 0 < h && Greater(cmp, s[Parent(h)], s[h])
    ensures OrderedAbove(cmp, Swap(s, h, Parent(h)), Parent(h))
  {
    var p := Parent(h);
    var t := Swap(s, h, p);
    LeTotal(cmp, s[p], s[h]);
    forall i | 0 < i < |t| && i != p ensures Le(cmp, t[Parent(i)], t[i]) {
      if Parent(i) == p && i != h {
        LeTransitive(cmp, s[h], s[p], s[i]);
      }
    }
    forall i | 0 < i < |t| && Parent(i) == p && 0 < p ensures Le(cmp, t[Parent(p)], t[i]) {
      if i != h {
        LeTransitive(cmp, s[Parent(p)], s[p], s[i]);
      }
    }
  }

  lemma SiftUpDone(cmp: Comparator, s: seq<Item>, h: nat)
    requires OrderedAbove(cmp, s, h) && (h == 0 || Le(cmp, s[Parent(h)], s[h]))
    ensures Ordered(cmp, s)
  {
  }

  /** A child that is not greater than the other. */
  ghost predicate LeastChild(cmp: Comparator, s: seq<Item>, h: nat, c: nat) {
    0 < c < |s| && h == Parent(c) && forall i :: 0 < i < |s| && Parent(i) == h ==> Le(cmp, s[c], s[i])
  }

  /** Where the least child is not greater, it and the item change places. */
  lemma SiftDownStep(cmp: Comparator, s: seq<Item>, h: nat, c: nat)
    requires OrderedBelow(cmp, s, h) && LeastChild(cmp, s, h, c) && Le(cmp, s[c], s[h])
    ensures OrderedBelow(cmp, Swap(s, h, c), c)
  {
    var t := Swap(s, h, c);
    forall i | 0 < i < |t| && Parent(i) != c ensures Le(cmp, t[Parent(i)], t[i]) {
    }
    forall i | 0 < i < |t| && Parent(i) == c ensures Le(cmp, t[Parent(c)], t[i]) {
    }
  }

  lemma SiftDownDone(cmp: Comparator, s: seq<Item>, h: nat, c: nat)
    requires Lawful(cmp) && OrderedBelow(cmp, s, h)
    requires |s| <= 2 * h + 1 || (LeastChild(cmp, s, h, c) && Greater(cmp, s[c], s[h]))
    ensures Ordered(cmp, s)
  {
    forall i | 0 < i < |s| && Parent(i) == h ensures Le(cmp, s[h], s[i]) {
      LeTotal(cmp, s[c], s[h]);
      LeTransitive(cmp, s[h], s[c], s[i]);
    }
  }

  /** The first item of a heap is a least one. */
  lemma {:induction false} RootIsLeast(cmp: Comparator, s: seq<Item>, i: nat)
    requires Lawful(cmp) && Ordered(cmp, s) && i < |s|
    ensures Le(cmp, s[0], s[i])
  {
    if 0 < i {
      RootIsLeast(cmp, s, Parent(i));
      LeTransitive(cmp, s[0], s[Parent(i)], s[i]);
    } else {
      LeTotal(cmp, s[0], s[0]);
    }
  }

  ghost predicate Ascending(cmp: Comparator, s: seq<Item>) {
    forall i, j :: 0 <= i <= j < |s| ==> Le(cmp, s[i], s[j])
  }

  ghost predicate Below(cmp: Comparator, a: Item, m: multiset<Item>) {
    forall b :: b in m ==> Le(cmp, a, b)
  }
}
