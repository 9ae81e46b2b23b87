/**
  CFArray: a sequence of items kept in a centred deque of buckets while it is
  small and in a large store when it is not.
*/
module MutableArray {
  import opened Bits
  import opened Items

  const MAX_BUCKETS: nat := 262140

  function Min(a: nat, b: nat): nat {
    if a < b then a else b
  }

  function RoundUpCapacity(capacity: nat): nat {
    if capacity < 4 then 4 else Min(Pow2(Flsl(capacity)), MAX_BUCKETS)
  }

  /** Rounding up gives enough buckets, or as many as a deque may have. */
  lemma RoundUpEnough(capacity: nat)
    ensures 4 <= RoundUpCapacity(capacity) <= MAX_BUCKETS
    ensures Min(capacity, MAX_BUCKETS) <= RoundUpCapacity(capacity)
  {
    FlslBounds(capacity);
  }

  /** What replacing a range of a sequence means. */
  function Splice(s: seq<Item>, loc: nat, len: nat, vs: seq<Item>): seq<Item>
    requires loc + len <= |s|
  {
    s[..loc] + vs + s[loc + len..]
  }

  // ---------- what the buckets hold ----------

  function Nils(n: nat): (r: seq<Item>) {
    seq(n, _ => NIL)
  }

  /** Nothing but null pointers outside a window of the buckets. */
  ghost predicate Clean(s: seq<Item>, lo: nat, hi: nat) {
    lo <= hi <= |s| && s[..lo] == Nils(lo) && s[hi..] == Nils(|s| - hi)
  }

  /** From index l on, the buckets hold pre, room for n, and post, and nothing else. */
  ghost predicate HasGap(s: seq<Item>, l: nat, pre: seq<Item>, n: nat, post: seq<Item>) {
    && Clean(s, l, l + |pre| + n + |post|)
    && s[l..l + |pre|] == pre
    && s[l + |pre| + n..l + |pre| + n + |post|] == post
  }

  /** The same, index by index. */
  ghost predicate GapByIndex(s: seq<Item>, l: nat, pre: seq<Item>, n: nat, post: seq<Item>) {
    && l + |pre| + n + |post| <= |s|
    && (forall i :: l <= i < l + |pre| ==> s[i] == pre[i - l])
    && (forall i :: l + |pre| + n <= i < l + |pre| + n + |post| ==> s[i] == post[i - l - |pre| - n])
    && (forall i :: 0 <= i < |s| && !(l <= i < l + |pre| + n + |post|) ==> s[i] == NIL)
  }

  lemma GapAtIndex(s: seq<Item>, l: nat, pre: seq<Item>, n: nat, post: seq<Item>)
    requires HasGap(s, l, pre, n, post)
    ensures GapByIndex(s, l, pre, n, post)
  {
    var g, h := l + |pre| + n, l + |pre| + n + |post|;
    forall i | l <= i < l + |pre| ensures s[i] == pre[i - l] {
      assert s[i] == s[l..l + |pre|][i - l];
    }
    forall i | g <= i < h ensures s[i] == post[i - g] {
      assert s[i] == s[g..h][i - g];
    }
    forall i | 0 <= i < |s| && !(l <= i < h) ensures s[i] == NIL {
      if i < l {
        assert s[i] == s[..l][i];
      } else {
        assert s[i] == s[h..][i - h];
      }
    }
  }

  lemma GapFromIndex(s: seq<Item>, l: nat, pre: seq<Item>, n: nat, post: seq<Item>)
    requires GapByIndex(s, l, pre, n, post)
    ensures HasGap(s, l, pre, n, post)
  {
  }

  /** A window of items has room wherever it is wanted. */
  lemma WindowHasGap(s: seq<Item>, l: nat, items: seq<Item>, a: nat, b: nat)
    requires HasGap(s, l, items, 0, []) && a + b <= |items|
    ensures HasGap(s, l, items[..a], b, items[a + b..])
  {
    GapAtIndex(s, l, items, 0, []);
    GapFromIndex(s, l, items[..a], b, items[a + b..]);
  }

  lemma ClearKeepsGap(s: seq<Item>, l: nat, pre: seq<Item>, n: nat, post: seq<Item>, t: seq<Item>)
    requires HasGap(s, l, pre, n, post) && Cleared(s, t, l + |pre|, n)
    ensures HasGap(t, l, pre, n, post)
  {
    GapAtIndex(s, l, pre, n, post);
    forall i | 0 <= i < |t| ensures t[i] == if l + |pre| <= i < l + |pre| + n then NIL else s[i] {
      assert ClearedAt(s, t, l + |pre|, n, i);
    }
    GapFromIndex(t, l, pre, n, post);
  }

  lemma GapInWindow(s: seq<Item>, l: nat, pre: seq<Item>, n: nat, post: seq<Item>)
    requires HasGap(s, l, pre, n, post)
    ensures var w := s[l..l + |pre| + n + |post|]; w[..|pre|] == pre && w[|pre| + n..] == post
  {
  }

  lemma SetKeepsWindow(s: seq<Item>, l: nat, items: seq<Item>, idx: nat, v: Item)
    requires HasGap(s, l, items, 0, []) && idx < |items|
    ensures HasGap(s[l + idx := v], l, items[idx := v], 0, [])
  {
    GapAtIndex(s, l, items, 0, []);
    GapFromIndex(s[l + idx := v], l, items[idx := v], 0, []);
  }

  /** Filling the room gives a window again. */
  lemma FillClosesGap(s: seq<Item>, l: nat, pre: seq<Item>, vs: seq<Item>, post: seq<Item>, t: seq<Item>)
    requires HasGap(s, l, pre, |vs|, post) && Filled(s, t, l + |pre|, vs)
    ensures HasGap(t, l, pre + vs + post, 0, [])
  {
    GapAtIndex(s, l, pre, |vs|, post);
    var at, items := l + |pre|, pre + vs + post;
    forall i | 0 <= i < |t|
      ensures l <= i < l + |items| ==> t[i] == items[i - l]
      ensures !(l <= i < l + |items|) ==> t[i] == NIL
    {
      assert FilledAt(s, t, at, vs, i);
    }
    GapFromIndex(t, l, items, 0, []);
  }

  lemma FillHasGap(s: seq<Item>, l: nat, vs: seq<Item>, a: nat, b: nat, t: seq<Item>)
    requires HasGap(s, l, [], |vs|, []) && Filled(s, t, l, vs) && a + b <= |vs|
    ensures HasGap(t, l, vs[..a], b, vs[a + b..])
  {
    FillClosesGap(s, l, [], vs, [], t);
    assert [] + vs + [] == vs;
    WindowHasGap(t, l, vs, a, b);
  }

  // ---------- block moves within a bucket array ----------

  // What an operation on the buckets s makes of each bucket of t.

  predicate MovedAt(s: seq<Item>, t: seq<Item>, dst: nat, src: nat, n: nat, i: nat)
    requires i < |t| == |s| && dst + n <= |s| && src + n <= |s|
  {
    t[i] == if dst <= i < dst + n then s[i - dst + src] else s[i]
  }

  ghost predicate Moved(s: seq<Item>, t: seq<Item>, dst: nat, src: nat, n: nat) {
    && |t| == |s| && dst + n <= |s| && src + n <= |s|
    && forall i {:trigger MovedAt(s, t, dst, src, n, i)} :: 0 <= i < |t| ==> MovedAt(s, t, dst, src, n, i)
  }

  predicate FilledAt(s: seq<Item>, t: seq<Item>, at: nat, vs: seq<Item>, i: nat)
    requires i < |t| == |s| && at + |vs| <= |s|
  {
    t[i] == if at <= i < at + |vs| then vs[i - at] else s[i]
  }

  ghost predicate Filled(s: seq<Item>, t: seq<Item>, at: nat, vs: seq<Item>) {
    && |t| == |s| && at + |vs| <= |s|
    && forall i {:trigger FilledAt(s, t, at, vs, i)} :: 0 <= i < |t| ==> FilledAt(s, t, at, vs, i)
  }

  predicate ClearedAt(s: seq<Item>, t: seq<Item>, at: nat, n: int, i: nat)
    requires i < |t| == |s|
  {
    t[i] == if at <= i < at + n then NIL else s[i]
  }

  ghost predicate Cleared(s: seq<Item>, t: seq<Item>, at: nat, n: int) {
    && |t| == |s| && at + n <= |s|
    && forall i {:trigger ClearedAt(s, t, at, n, i)} :: 0 <= i < |t| ==> ClearedAt(s, t, at, n, i)
  }

  /** `memmove`, skipped for an empty region: source and destination may overlap. */
  method Move(a: array<Item>, dst: nat, src: nat, n: nat)
    requires dst + n <= a.Length && src + n <= a.Length
    modifies a
    ensures Moved(old(a[..]), a[..], dst, src, n)
  {
    if 0 < n {
      forall i | 0 <= i < n {
        a[dst + i] := a[src + i];
      }
    }
  }

  /** `bzero` of the buckets newly exposed, if any. */
  method Clear(a: array<Item>, at: nat, n: int)
    requires at + n <= a.Length
    modifies a
    ensures Cleared(old(a[..]), a[..], at, n)
  {
    if 0 < n {
      forall i | at <= i < at + n {
        a[i] := NIL;
      }
    }
  }

  method FillBuckets(a: array<Item>, at: nat, vs: seq<Item>)
    requires at + |vs| <= a.Length
    modifies a
    ensures Filled(old(a[..]), a[..], at, vs)
  {
    forall i | 0 <= i < |vs| {
      a[at + i] := vs[i];
    }
  }

  method SetInPlace(a: array<Item>, i: nat, v: Item)
    requires i < a.Length
    modifies a
    ensures a[..] == old(a[..])[i := v]
  {
    a[i] := v;
  }

  method NewBuckets(n: nat) returns (t: array<Item>)
    ensures fresh(t) && t.Length == n && t[..] == Nils(n)
  {
    t := new Item[n](_ => NIL);
  }

  // In the moves below regions A and C hold pre and post, around a range of b
  // buckets before the move and of newCount buckets after it.

  lemma MoveCEffect(s: seq<Item>, s1: seq<Item>, t: seq<Item>, l: nat, pre: seq<Item>, b: nat, post: seq<Item>, n: nat)
    requires HasGap(s, l, pre, b, post)
    requires Moved(s, s1, l + |pre| + n, l + |pre| + b, |post|)
    requires Cleared(s1, t, l + |pre| + n + |post|, b - n)
    ensures HasGap(t, l, pre, n, post)
  {
    GapAtIndex(s, l, pre, b, post);
    var o, d := l + |pre| + b, l + |pre| + n;
    forall i | 0 <= i < |t|
      ensures l <= i < l + |pre| ==> t[i] == pre[i - l]
      ensures d <= i < d + |post| ==> t[i] == post[i - d]
      ensures !(l <= i < d + |post|) ==> t[i] == NIL
    {
      assert MovedAt(s, s1, d, o, |post|, i) && ClearedAt(s1, t, d + |post|, b - n, i);
    }
    GapFromIndex(t, l, pre, n, post);
  }

  /** Moves region C to close or open the gap, region A staying where it is. */
  method MoveC(k: array<Item>, l: nat, a: nat, b: nat, c: nat, newCount: nat,
               ghost pre: seq<Item>, ghost post: seq<Item>)
    requires HasGap(k[..], l, pre, b, post) && |pre| == a && |post| == c
    requires l + a + newCount + c <= k.Length
    modifies k
    ensures HasGap(k[..], l, pre, newCount, post)
  {
    var oldC0, newC0 := l + a + b, l + a + newCount;
    ghost var s := k[..];
    Move(k, newC0, oldC0, c);
    ghost var s1 := k[..];
    Clear(k, newC0 + c, oldC0 - newC0);
    MoveCEffect(s, s1, k[..], l, pre, b, post, newCount);
  }

  lemma MoveAEffect(s: seq<Item>, s1: seq<Item>, t: seq<Item>, l: nat, pre: seq<Item>, b: nat, post: seq<Item>,
                    n: nat, newL: nat)
    requires HasGap(s, l, pre, b, post) && newL + n == l + b
    requires Moved(s, s1, newL, l, |pre|) && Cleared(s1, t, l, newL - l)
    ensures HasGap(t, newL, pre, n, post)
  {
    GapAtIndex(s, l, pre, b, post);
    var o := l + |pre| + b;
    forall i | 0 <= i < |t|
      ensures newL <= i < newL + |pre| ==> t[i] == pre[i - newL]
      ensures o <= i < o + |post| ==> t[i] == post[i - o]
      ensures !(newL <= i < o + |post|) ==> t[i] == NIL
    {
      assert MovedAt(s, s1, newL, l, |pre|, i) && ClearedAt(s1, t, l, newL - l, i);
    }
    assert newL + |pre| + n == o;
    GapFromIndex(t, newL, pre, n, post);
  }

  /** Moves region A to close or open the gap, region C staying where it is. */
  method MoveA(k: array<Item>, l: nat, a: nat, b: nat, newCount: nat, ghost pre: seq<Item>, ghost post: seq<Item>)
      returns (newL: nat)
    requires HasGap(k[..], l, pre, b, post) && |pre| == a
    requires newCount <= l + b
    modifies k
    ensures HasGap(k[..], newL, pre, newCount, post)
  {
    newL := l + b - newCount;
    ghost var s := k[..];
    Move(k, newL, l, a);
    ghost var s1 := k[..];
    Clear(k, l, newL - l);
    MoveAEffect(s, s1, k[..], l, pre, b, post, newCount, newL);
  }

  /** Two blocks moved, neither over the other before it was moved. */
  predicate BothMovedAt(s: seq<Item>, t: seq<Item>, dst: nat, src: nat, n: nat, dst': nat, src': nat, n': nat, i: nat)
    requires i < |t| == |s| && dst + n <= |s| && src + n <= |s| && dst' + n' <= |s| && src' + n' <= |s|
  {
    t[i] == if dst' <= i < dst' + n' then s[i - dst' + src'] else if dst <= i < dst + n then s[i - dst + src] else s[i]
  }

  ghost predicate BothMoved(s: seq<Item>, t: seq<Item>, dst: nat, src: nat, n: nat, dst': nat, src': nat, n': nat) {
    && |t| == |s| && dst + n <= |s| && src + n <= |s| && dst' + n' <= |s| && src' + n' <= |s|
    && forall i {:trigger BothMovedAt(s, t, dst, src, n, dst', src', n', i)} :: 0 <= i < |t| ==>
         BothMovedAt(s, t, dst, src, n, dst', src', n', i)
  }

  lemma LowerFirst(s: seq<Item>, s1: seq<Item>, t: seq<Item>, dst: nat, src: nat, n: nat, dst': nat, src': nat, n': nat)
    requires Moved(s, s1, dst, src, n) && Moved(s1, t, dst', src', n') && dst + n <= src'
    ensures BothMoved(s, t, dst, src, n, dst', src', n')
  {
    forall i | 0 <= i < |t| ensures BothMovedAt(s, t, dst, src, n, dst', src', n', i) {
      assert MovedAt(s1, t, dst', src', n', i) && MovedAt(s, s1, dst, src, n, i);
      if dst' <= i < dst' + n' {
        assert MovedAt(s, s1, dst, src, n, i - dst' + src');
      }
    }
  }

  lemma UpperFirst(s: seq<Item>, s1: seq<Item>, t: seq<Item>, dst: nat, src: nat, n: nat, dst': nat, src': nat, n': nat)
    requires Moved(s, s1, dst', src', n') && Moved(s1, t, dst, src, n) && src + n <= dst' && dst + n <= dst'
    ensures BothMoved(s, t, dst, src, n, dst', src', n')
  {
    forall i | 0 <= i < |t| ensures BothMovedAt(s, t, dst, src, n, dst', src', n', i) {
      assert MovedAt(s1, t, dst, src, n, i) && MovedAt(s, s1, dst', src', n', i);
      if dst <= i < dst + n {
        assert MovedAt(s, s1, dst', src', n', i - dst + src);
      }
    }
  }

  /** Moving both down, the lower block goes first: the upper is never overwritten before it moves. */
  method MoveLowerFirst(k: array<Item>, dst: nat, src: nat, n: nat, dst': nat, src': nat, n': nat)
    requires dst + n <= k.Length && src + n <= k.Length && dst' + n' <= k.Length && src' + n' <= k.Length
    requires dst + n <= src'
    modifies k
    ensures BothMoved(old(k[..]), k[..], dst, src, n, dst', src', n')
  {
    Move(k, dst, src, n);
    ghost var s1 := k[..];
    Move(k, dst', src', n');
    LowerFirst(old(k[..]), s1, k[..], dst, src, n, dst', src', n');
  }

  /** Moving both up, the upper block goes first: the lower is never overwritten before it moves. */
  method MoveUpperFirst(k: array<Item>, dst: nat, src: nat, n: nat, dst': nat, src': nat, n': nat)
    requires dst + n <= k.Length && src + n <= k.Length && dst' + n' <= k.Length && src' + n' <= k.Length
    requires src + n <= dst' && dst + n <= dst'
    modifies k
    ensures BothMoved(old(k[..]), k[..], dst, src, n, dst', src', n')
  {
    Move(k, dst', src', n');
    ghost var s1 := k[..];
    Move(k, dst, src, n);
    UpperFirst(old(k[..]), s1, k[..], dst, src, n, dst', src', n');
  }

  lemma MoveDownEffect(s: seq<Item>, s1: seq<Item>, t: seq<Item>, l: nat, pre: seq<Item>, b: nat, post: seq<Item>,
                       n: nat, newL: nat)
    requires HasGap(s, l, pre, b, post) && b < n && newL < l
    requires BothMoved(s, s1, newL, l, |pre|, newL + |pre| + n, l + |pre| + b, |post|)
    requires Cleared(s1, t, newL + |pre| + n + |post|, l + b - newL - n)
    ensures HasGap(t, newL, pre, n, post)
  {
    GapAtIndex(s, l, pre, b, post);
    var o, d := l + |pre| + b, newL + |pre| + n;
    forall i | 0 <= i < |t|
      ensures newL <= i < newL + |pre| ==> t[i] == pre[i - newL]
      ensures d <= i < d + |post| ==> t[i] == post[i - d]
      ensures !(newL <= i < d + |post|) ==> t[i] == NIL
    {
      assert BothMovedAt(s, s1, newL, l, |pre|, d, o, |post|, i) && ClearedAt(s1, t, d + |post|, o - d, i);
    }
    GapFromIndex(t, newL, pre, n, post);
  }

  method MoveDown(k: array<Item>, l: nat, a: nat, b: nat, c: nat, newCount: nat, newL: nat,
                  ghost pre: seq<Item>, ghost post: seq<Item>)
    requires HasGap(k[..], l, pre, b, post) && |pre| == a && |post| == c
    requires newL + a + newCount + c <= k.Length && b < newCount && newL < l
    modifies k
    ensures HasGap(k[..], newL, pre, newCount, post)
  {
    var oldC0, newC0 := l + a + b, newL + a + newCount;
    MoveLowerFirst(k, newL, l, a, newC0, oldC0, c);
    ghost var s1 := k[..];
    Clear(k, newC0 + c, oldC0 - newC0);
    MoveDownEffect(old(k[..]), s1, k[..], l, pre, b, post, newCount, newL);
  }

  lemma MoveUpEffect(s: seq<Item>, s1: seq<Item>, t: seq<Item>, l: nat, pre: seq<Item>, b: nat, post: seq<Item>,
                     n: nat, newL: nat)
    requires HasGap(s, l, pre, b, post) && b < n && l <= newL
    requires BothMoved(s, s1, newL, l, |pre|, newL + |pre| + n, l + |pre| + b, |post|)
    requires Cleared(s1, t, l, newL - l)
    ensures HasGap(t, newL, pre, n, post)
  {
    GapAtIndex(s, l, pre, b, post);
    var o, d := l + |pre| + b, newL + |pre| + n;
    forall i | 0 <= i < |t|
      ensures newL <= i < newL + |pre| ==> t[i] == pre[i - newL]
      ensures d <= i < d + |post| ==> t[i] == post[i - d]
      ensures !(newL <= i < d + |post|) ==> t[i] == NIL
    {
      assert BothMovedAt(s, s1, newL, l, |pre|, d, o, |post|, i) && ClearedAt(s1, t, l, newL - l, i);
    }
    GapFromIndex(t, newL, pre, n, post);
  }

  method MoveUp(k: array<Item>, l: nat, a: nat, b: nat, c: nat, newCount: nat, newL: nat,
                ghost pre: seq<Item>, ghost post: seq<Item>)
    requires HasGap(k[..], l, pre, b, post) && |pre| == a && |post| == c
    requires newL + a + newCount + c <= k.Length && b < newCount && l <= newL
    modifies k
    ensures HasGap(k[..], newL, pre, newCount, post)
  {
    var oldC0, newC0 := l + a + b, newL + a + newCount;
    MoveUpperFirst(k, newL, l, a, newC0, oldC0, c);
    ghost var s1 := k[..];
    Clear(k, l, newL - l);
    MoveUpEffect(old(k[..]), s1, k[..], l, pre, b, post, newCount, newL);
  }

  /** Moves both regions and zeroes what they leave exposed. */
  method MoveBoth(k: array<Item>, l: nat, a: nat, b: nat, c: nat, newCount: nat, newL: nat,
                  ghost pre: seq<Item>, ghost post: seq<Item>)
    requires HasGap(k[..], l, pre, b, post) && |pre| == a && |post| == c
    requires newL + a + newCount + c <= k.Length && b < newCount
    modifies k
    ensures HasGap(k[..], newL, pre, newCount, post)
  {
    if newL < l {
      MoveDown(k, l, a, b, c, newCount, newL, pre, post);
    } else {
      MoveUp(k, l, a, b, c, newCount, newL, pre, post);
    }
  }

  lemma CopyEffect(s: seq<Item>, s1: seq<Item>, t: seq<Item>, l: nat, pre: seq<Item>, n: nat, post: seq<Item>)
    requires s == Nils(|s|) && l + |pre| + n + |post| <= |s|
    requires Filled(s, s1, l, pre) && Filled(s1, t, l + |pre| + n, post)
    ensures HasGap(t, l, pre, n, post)
  {
    forall i | 0 <= i < |t|
      ensures l <= i < l + |pre| ==> t[i] == pre[i - l]
      ensures l + |pre| + n <= i < l + |pre| + n + |post| ==> t[i] == post[i - (l + |pre| + n)]
      ensures !(l <= i < l + |pre| + n + |post|) ==> t[i] == NIL
    {
      assert FilledAt(s, s1, l, pre, i) && FilledAt(s1, t, l + |pre| + n, post, i) && s[i] == Nils(|s|)[i];
    }
    GapFromIndex(t, l, pre, n, post);
  }

  /** Copies both regions to a new array of null pointers, centred. */
  method CopyBoth(k: array<Item>, l: nat, a: nat, b: nat, c: nat, newCount: nat, capacity: nat,
                  ghost pre: seq<Item>, ghost post: seq<Item>)
      returns (t: array<Item>, newL: nat)
    requires HasGap(k[..], l, pre, b, post) && |pre| == a && |post| == c && a + newCount + c <= capacity
    ensures fresh(t) && t.Length == capacity && newL == (capacity - (a + newCount + c)) / 2
    ensures HasGap(t[..], newL, pre, newCount, post)
  {
    t := NewBuckets(capacity);
    newL := (capacity - (a + newCount + c)) / 2;
    ghost var s := t[..];
    FillBuckets(t, newL, k[l..l + a]);
    ghost var s1 := t[..];
    FillBuckets(t, newL + a + newCount, k[l + a + b..l + a + b + c]);
    CopyEffect(s, s1, t[..], newL, pre, newCount, post);
  }

  // ---------- the array ----------

  /** Where recentred items start, given the free buckets: more are left at the end the items last moved away from. */
  function RecentredLeft(free: nat, bias: int): (l: nat)
    ensures l <= free
    ensures bias == 0 ==> -1 <= free - l - l <= 1
    ensures bias < 0 ==> l <= free - l + 1
    ensures 0 < bias ==> free - l <= l + 2
  {
    var mid := free / 2;
    if bias < 0 then mid - mid / 2 else if 0 < bias then mid + mid / 2 else mid
  }

  datatype Representation = NoStore | Deque | Storage

  /** Large arrays go to the store and come back from it at half that size; in between they stay where they are. */
  predicate UsesStore(was: Representation, count: nat) {
    MAX_BUCKETS <= count || (was.Storage? && MAX_BUCKETS / 2 < count)
  }

  /** What retaining makes of each new value. */
  function Retained(retain: Item -> Item, vs: seq<Item>): seq<Item> {
    seq(|vs|, i requires 0 <= i < |vs| => retain(vs[i]))
  }

  datatype Edit =
    | Replace(loc: nat, len: nat, newValues: seq<Item>)
    | Set(idx: nat, value: Item)
    | Exchange(i: nat, j: nat)
    | RemoveAll

  /** The range and index checks of the public operations. */
  predicate InBounds(e: Edit, n: nat) {
    match e
    case Replace(loc, len, _) => loc + len <= n
    case Set(idx, _) => idx <= n
    case Exchange(i, j) => i < n && j < n
    case RemoveAll => true
  }

  /** What an edit does to a plain sequence. */
  function Edited(retain: Item -> Item, s: seq<Item>, e: Edit): seq<Item>
    requires InBounds(e, |s|)
  {
    match e
    case Replace(loc, len, vs) => Splice(s, loc, len, Retained(retain, vs))
    case Set(idx, v) => Splice(s, idx, if idx < |s| then 1 else 0, [retain(v)])
    case Exchange(i, j) => s[i := s[j]][j := s[i]]
    case RemoveAll => []
  }

  predicate AllInBounds(retain: Item -> Item, s: seq<Item>, es: seq<Edit>)
    decreases |es|
  {
    es == [] || (InBounds(es[0], |s|) && AllInBounds(retain, Edited(retain, s, es[0]), es[1..]))
  }

  function EditedAll(retain: Item -> Item, s: seq<Item>, es: seq<Edit>): seq<Item>
    requires AllInBounds(retain, s, es)
    decreases |es|
  {
    if es == [] then s else EditedAll(retain, Edited(retain, s, es[0]), es[1..])
  }

  class CFArray {
    const retain: Item -> Item      // the identity when there is no callback
    const releases: bool            // whether there is a release callback
    var count: nat
    var rep: Representation
    var leftIdx: nat
    var bias: int
    var buckets: array<Item>        // the deque, all of its capacity
    var store: seq<Item>            // the large store

    constructor (retain: Item -> Item, releases: bool)
      ensures Valid() && fresh(buckets) && this.retain == retain && Items() == []
    {
      this.retain, this.releases := retain, releases;
      count, rep, leftIdx, bias, store := 0, NoStore, 0, 0, [];
      buckets := new Item[0];
    }

    /** The sequence this array represents. */
    ghost function Items(): seq<Item>
      reads this, buckets
      requires rep.Deque? ==> leftIdx + count <= buckets.Length
    {
      match rep
      case NoStore => []
      case Deque => buckets[leftIdx..leftIdx + count]
      case Storage => store
    }

    /** A deque with pre, room for n and post, within capacity, and no stale pointer. */
    ghost predicate DequeHolds(pre: seq<Item>, n: nat, post: seq<Item>)
      reads this, buckets
    {
      4 <= buckets.Length <= MAX_BUCKETS && -1 <= bias <= 1 && HasGap(buckets[..], leftIdx, pre, n, post)
    }

    /** Small arrays are deques, large ones stores, and in between the representation is kept. */
    ghost predicate Valid()
      reads this, buckets
    {
      match rep
      case NoStore => count == 0
      case Deque => count < MAX_BUCKETS && leftIdx + count <= buckets.Length && DequeHolds(Items(), 0, [])
      case Storage => count == |store| && MAX_BUCKETS / 2 < count
    }

    lemma Settled(items: seq<Item>)
      requires rep.Deque? && |items| == count < MAX_BUCKETS && DequeHolds(items, 0, [])
      ensures Valid() && Items() == items
    {
    }

    /** Makes room in the deque for newCount items in place of a range. */
    method RepositionDequeRegions(loc: nat, len: nat, newCount: nat, ghost pre: seq<Item>, ghost post: seq<Item>)
      requires DequeHolds(pre, len, post) && loc == |pre| && count == loc + len + |post|
      requires loc + newCount + |post| < MAX_BUCKETS && len != newCount
      modifies this`leftIdx, this`bias, this`buckets, buckets
      ensures buckets == old(buckets) || fresh(buckets)
      ensures DequeHolds(pre, newCount, post)
    {
      var future := count - len + newCount;
      var L, A, B, C := leftIdx, loc, len, count - loc - len;
      var R := buckets.Length - count - L;
      var wiggle := if buckets.Length / 0x2_0000 < 4 then 4 else buckets.Length / 0x2_0000;
      if buckets.Length < future || (count < future && L + R < wiggle) {
        Reallocate(A, B, C, newCount, future + wiggle, pre, post);
      } else {
        Shift(A, B, C, R, newCount, pre, post);
      }
    }

    /** Moves to a new deque of at least the wanted size, if a deque can be so large, and centres the items. */
    method Reallocate(A: nat, B: nat, C: nat, newCount: nat, wanted: nat, ghost pre: seq<Item>, ghost post: seq<Item>)
      requires HasGap(buckets[..], leftIdx, pre, B, post) && |pre| == A && |post| == C
      requires A + newCount + C <= Min(wanted, MAX_BUCKETS)
      modifies this`leftIdx, this`bias, this`buckets
      ensures fresh(buckets) && buckets.Length == RoundUpCapacity(wanted) && DequeHolds(pre, newCount, post)
      ensures bias == 0 && leftIdx == (buckets.Length - (A + newCount + C)) / 2
    {
      RoundUpEnough(wanted);
      buckets, leftIdx := CopyBoth(buckets, leftIdx, A, B, C, newCount, RoundUpCapacity(wanted), pre, post);
      bias := 0;
    }

    /** Chooses which of the regions A and C to move within the present buckets. */
    method Shift(A: nat, B: nat, C: nat, R: nat, newCount: nat, ghost pre: seq<Item>, ghost post: seq<Item>)
      requires DequeHolds(pre, B, post) && |pre| == A && |post| == C
      requires leftIdx + A + B + C + R == buckets.Length
      requires A + newCount + C <= buckets.Length && B != newCount
      modifies this`leftIdx, this`bias, buckets
      ensures DequeHolds(pre, newCount, post)
      ensures C < A && newCount - B <= R ==> leftIdx == old(leftIdx)
    {
      var L, numNew := leftIdx, newCount - B;
      if (numNew < 0 && C < A) || (numNew <= R && C < A) {
        MoveC(buckets, L, A, B, C, newCount, pre, post);
      } else if numNew < 0 || (numNew <= L && A <= C) {
        leftIdx := MoveA(buckets, L, A, B, newCount, pre, post);
      } else {
        Recentre(L, A, B, C, newCount, pre, post);
      }
    }

    /** Recentres everything, leaning away from the side that was short of room last time. */
    method Recentre(L: nat, A: nat, B: nat, C: nat, newCount: nat, ghost pre: seq<Item>, ghost post: seq<Item>)
      requires L == leftIdx && HasGap(buckets[..], L, pre, B, post) && |pre| == A && |post| == C
      requires A + newCount + C <= buckets.Length && B < newCount
      modifies this`leftIdx, this`bias, buckets
      ensures HasGap(buckets[..], leftIdx, pre, newCount, post)
      ensures -1 <= bias <= 1
    {
      var R := buckets.Length - (A + B + C) - L;
      leftIdx := RecentredLeft(L + R - (newCount - B), bias);
      bias := if (L + R - (newCount - B)) / 2 < L then -1 else 1;
      MoveBoth(buckets, L, A, B, C, newCount, leftIdx, pre, post);
    }

    /** Releases a range that is about to be replaced: its slots are free, the others untouched. */
    method ReleaseRange(loc: nat, len: nat)
      requires Valid() && loc + len <= count
      modifies this`store, buckets
      ensures Gapped(old(Items())[..loc], len, old(Items())[loc + len..])
    {
      match rep {
        case NoStore =>
        case Deque => ReleaseBuckets(loc, len);
        case Storage =>
          if 0 < len && releases {
            store := store[..loc] + Nils(len) + store[loc + len..];
          }
      }
    }

    method ReleaseBuckets(loc: nat, len: nat)
      requires rep.Deque? && Valid() && loc + len <= count
      modifies buckets
      ensures DequeHolds(old(Items())[..loc], len, old(Items())[loc + len..])
    {
      ghost var s, items := buckets[..], Items();
      WindowHasGap(s, leftIdx, items, loc, len);
      Clear(buckets, leftIdx + loc, len);
      ClearKeepsGap(s, leftIdx, items[..loc], len, items[loc + len..], buckets[..]);
    }

    method ConvertDequeToStore(ghost pre: seq<Item>, n: nat, ghost post: seq<Item>)
      requires rep.Deque? && DequeHolds(pre, n, post) && count == |pre| + n + |post|
      modifies this`rep, this`store
      ensures rep.Storage? && StoreHolds(pre, n, post)
    {
      store := buckets[leftIdx..leftIdx + count];
      rep := Storage;
      GapInWindow(buckets[..], leftIdx, pre, n, post);
    }

    /** The store, not the count, tells how many items there are at this point. */
    method ConvertStoreToDeque(ghost pre: seq<Item>, n: nat, ghost post: seq<Item>)
      requires rep.Storage? && StoreHolds(pre, n, post) && |store| <= MAX_BUCKETS / 2
      modifies this`rep, this`leftIdx, this`bias, this`buckets
      ensures rep.Deque? && fresh(buckets) && DequeHolds(pre, n, post)
      ensures bias == 0 && |store| + 6 <= buckets.Length && leftIdx == (buckets.Length - |store|) / 2
    {
      NewDeque(|store| + 6, |store|);
      FillDeque(pre, n, post);
    }

    method FillDeque(ghost pre: seq<Item>, ghost n: nat, ghost post: seq<Item>)
      requires DequeHolds([], |store|, []) && StoreHolds(pre, n, post)
      modifies buckets
      ensures DequeHolds(pre, n, post)
    {
      ghost var s := buckets[..];
      FillBuckets(buckets, leftIdx, store);
      FillHasGap(s, leftIdx, store, |pre|, n, buckets[..]);
    }

    /** An empty deque with its items' place in the middle. */
    method NewDeque(wanted: nat, n: nat)
      requires n <= Min(wanted, MAX_BUCKETS)
      modifies this`rep, this`leftIdx, this`bias, this`buckets
      ensures rep.Deque? && fresh(buckets) && bias == 0
      ensures Min(wanted, MAX_BUCKETS) <= buckets.Length && leftIdx == (buckets.Length - n) / 2
      ensures DequeHolds([], n, [])
    {
      RoundUpEnough(wanted);
      var capacity := RoundUpCapacity(wanted);
      buckets := NewBuckets(capacity);
      leftIdx, bias, rep := (capacity - n) / 2, 0, Deque;
      GapFromIndex(buckets[..], leftIdx, [], n, []);
    }

    ghost predicate StoreHolds(pre: seq<Item>, n: nat, post: seq<Item>)
      reads this
    {
      |store| == |pre| + n + |post| && store[..|pre|] == pre && store[|pre| + n..] == post
    }

    /** Room for n items stands between pre and post. */
    ghost predicate Gapped(pre: seq<Item>, n: nat, post: seq<Item>)
      reads this, buckets
    {
      var future := |pre| + n + |post|;
      match rep
      case NoStore => future == 0
      case Deque => future < MAX_BUCKETS && DequeHolds(pre, n, post)
      case Storage => MAX_BUCKETS / 2 < future && StoreHolds(pre, n, post)
    }

    /** Widens or narrows a range of the store. */
    method ResizeInStore(loc: nat, len: nat, newCount: nat, ghost pre: seq<Item>, ghost post: seq<Item>)
      requires StoreHolds(pre, len, post) && loc == |pre|
      modifies this`store
      ensures StoreHolds(pre, newCount, post)
    {
      if len < newCount {
        store := store[..loc + len] + Nils(newCount - len) + store[loc + len..];
      } else if newCount < len {
        store := store[..loc + newCount] + store[loc + len..];
      }
    }

    /** Resizes the room between the items before and after, in whatever representation the result calls for. */
    method MakeGap(loc: nat, len: nat, newCount: nat, ghost pre: seq<Item>, ghost post: seq<Item>)
      requires Gapped(pre, len, post) && loc == |pre| && count == loc + len + |post|
      modifies this`rep, this`leftIdx, this`bias, this`buckets, this`store, buckets
      ensures buckets == old(buckets) || fresh(buckets)
      ensures !rep.NoStore? && Gapped(pre, newCount, post)
      ensures rep.Storage? <==> UsesStore(old(rep), |pre| + newCount + |post|)
    {
      match rep {
        case Storage => MakeGapInStore(loc, len, newCount, pre, post);
        case NoStore => MakeGapFromNothing(newCount);
        case Deque => MakeGapInDeque(loc, len, newCount, pre, post);
      }
    }

    method MakeGapInStore(loc: nat, len: nat, newCount: nat, ghost pre: seq<Item>, ghost post: seq<Item>)
      requires rep.Storage? && StoreHolds(pre, len, post) && loc == |pre|
      modifies this`rep, this`leftIdx, this`bias, this`buckets, this`store
      ensures buckets == old(buckets) || fresh(buckets)
      ensures !rep.NoStore? && Gapped(pre, newCount, post)
      ensures rep.Storage? <==> UsesStore(Storage, |pre| + newCount + |post|)
    {
      ResizeInStore(loc, len, newCount, pre, post);
      if |store| <= MAX_BUCKETS / 2 {
        ConvertStoreToDeque(pre, newCount, post);
      }
    }

    method MakeGapFromNothing(newCount: nat)
      modifies this`rep, this`leftIdx, this`bias, this`buckets, this`store
      ensures buckets == old(buckets) || fresh(buckets)
      ensures !rep.NoStore? && Gapped([], newCount, [])
      ensures rep.Storage? <==> UsesStore(NoStore, newCount)
    {
      if MAX_BUCKETS <= newCount {
        store := Nils(newCount);
        rep := Storage;
      } else {
        NewDeque(newCount, newCount);
      }
    }

    method MakeGapInDeque(loc: nat, len: nat, newCount: nat, ghost pre: seq<Item>, ghost post: seq<Item>)
      requires rep.Deque? && Gapped(pre, len, post) && loc == |pre| && count == loc + len + |post|
      modifies this`rep, this`leftIdx, this`bias, this`buckets, this`store, buckets
      ensures buckets == old(buckets) || fresh(buckets)
      ensures !rep.NoStore? && Gapped(pre, newCount, post)
      ensures rep.Storage? <==> UsesStore(Deque, |pre| + newCount + |post|)
    {
      if MAX_BUCKETS <= count - len + newCount {
        ConvertDequeToStore(pre, len, post);
        ResizeInStore(loc, len, newCount, pre, post);
      } else if len != newCount {
        RepositionDequeRegions(loc, len, newCount, pre, post);
      }
    }

    /** Copies the new items into the gap. */
    method FillGap(vs: seq<Item>, ghost pre: seq<Item>, ghost post: seq<Item>, loc: nat, future: nat)
      requires !rep.NoStore? && Gapped(pre, |vs|, post) && loc == |pre| && future == |pre| + |vs| + |post|
      modifies this`store, this`count, buckets
      ensures Valid() && Items() == pre + vs + post && count == future
    {
      if rep.Storage? {
        store := store[..loc] + vs + store[loc + |vs|..];
        count := future;
      } else {
        ghost var s := buckets[..];
        FillBuckets(buckets, leftIdx + loc, vs);
        FillClosesGap(s, leftIdx, pre, vs, post, buckets[..]);
        count := future;
        Settled(pre + vs + post);
      }
    }

    /** Makes room for the new items in place of len old ones and copies them in. */
    method Refill(loc: nat, len: nat, newv: seq<Item>, ghost pre: seq<Item>, ghost post: seq<Item>)
      requires Gapped(pre, len, post) && loc == |pre| && count == loc + len + |post|
      modifies this, buckets
      ensures Valid() && (buckets == old(buckets) || fresh(buckets))
      ensures Items() == pre + newv + post && count == |pre| + |newv| + |post|
      ensures !rep.NoStore? && (rep.Storage? <==> UsesStore(old(rep), count))
    {
      var future := count - len + |newv|;
      MakeGap(loc, len, |newv|, pre, post);
      FillGap(newv, pre, post, loc, future);
    }

    /** Replaces a range by new values, which are retained first. */
    method ReplaceValues(loc: nat, len: nat, newValues: seq<Item>)
      requires Valid() && loc + len <= count
      modifies this, buckets
      ensures Valid() && (buckets == old(buckets) || fresh(buckets))
      ensures Items() == Splice(old(Items()), loc, len, Retained(retain, newValues))
      ensures count == old(count) - len + |newValues|
      ensures !rep.NoStore? && (rep.Storage? <==> UsesStore(old(rep), count))
    {
      var newv := Retained(retain, newValues);
      ghost var pre, post := Items()[..loc], Items()[loc + len..];
      ReleaseRange(loc, len);
      Refill(loc, len, newv, pre, post);
    }

    /** Releases every value and the storage with them. */
    method RemoveAllValues()
      requires Valid()
      modifies this, buckets
      ensures Valid() && Items() == [] && rep.NoStore? && buckets == old(buckets)
    {
      ReleaseRange(0, count);
      count, rep := 0, NoStore;
    }

    method GetValueAtIndex(idx: nat) returns (v: Item)
      requires Valid() && idx < count
      ensures v == Items()[idx]
    {
      v := if rep.Storage? then store[idx] else buckets[leftIdx + idx];
    }

    method SetBucket(idx: nat, v: Item)
      requires Valid() && idx < count
      modifies this`store, buckets
      ensures Valid() && Items() == old(Items())[idx := v]
    {
      if rep.Storage? {
        store := store[idx := v];
      } else {
        ghost var items := Items()[idx := v];
        SetKeepsWindow(buckets[..], leftIdx, Items(), idx, v);
        SetInPlace(buckets, leftIdx + idx, v);
        Settled(items);
      }
    }

    /** Setting the index just past the end appends. */
    method SetValueAtIndex(idx: nat, v: Item)
      requires Valid() && idx <= count
      modifies this, buckets
      ensures Valid() && (buckets == old(buckets) || fresh(buckets))
      ensures Items() == Splice(old(Items()), idx, if idx < old(count) then 1 else 0, [retain(v)])
    {
      if idx == count {
        ReplaceValues(idx, 0, [v]);
      } else {
        SetBucket(idx, retain(v));
      }
    }

    method ExchangeValuesAtIndices(i: nat, j: nat)
      requires Valid() && i < count && j < count
      modifies this`store, buckets
      ensures Valid() && Items() == old(Items())[i := old(Items())[j]][j := old(Items())[i]]
    {
      var v := GetValueAtIndex(i);
      var w := GetValueAtIndex(j);
      SetBucket(i, w);
      SetBucket(j, v);
    }

    method Perform(e: Edit)
      requires Valid() && InBounds(e, count)
      modifies this, buckets
      ensures Valid() && (buckets == old(buckets) || fresh(buckets))
      ensures Items() == Edited(retain, old(Items()), e)
    {
      match e
      case Replace(loc, len, vs) => ReplaceValues(loc, len, vs);
      case Set(idx, v) => SetValueAtIndex(idx, v);
      case Exchange(i, j) => ExchangeValuesAtIndices(i, j);
      case RemoveAll => RemoveAllValues();
    }

    lemma ItemsLength()
      requires Valid()
      ensures |Items()| == count
    {
    }

    /** Every run of edits on a new array, whatever representations it passes through. */
    static method Run(retain: Item -> Item, releases: bool, edits: seq<Edit>) returns (a: CFArray)
      requires AllInBounds(retain, [], edits)
      ensures a.Valid() && a.Items() == EditedAll(retain, [], edits)
    {
      a := new CFArray(retain, releases);
      for n := 0 to |edits|
        invariant fresh(a) && fresh(a.buckets) && a.retain == retain && a.Valid()
        invariant AllInBounds(retain, a.Items(), edits[n..])
        invariant EditedAll(retain, a.Items(), edits[n..]) == EditedAll(retain, [], edits)
      {
        assert edits[n..][0] == edits[n] && edits[n..][1..] == edits[n + 1..];
        a.ItemsLength();
        a.Perform(edits[n]);
      }
    }
  }
}
