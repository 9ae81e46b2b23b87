/**
  CFBitVector: ranges of bits are mapped by ramping up to a bucket boundary,
  going along with whole buckets and ramping down with the last fragment.
*/
module BitVector {
  import opened BitBucket

  function RoundUpCapacity(capacity: nat): nat {
    (capacity + 63) / 64 * 64
  }

  function NumBuckets(capacity: nat): nat {
    capacity / 8 + 1
  }

  /** The bits that some buckets hold, in order. */
  ghost function Bits(k: seq<bv8>): (s: seq<bool>)
    ensures |s| == 8 * |k|
  {
    seq(8 * |k|, i requires 0 <= i < 8 * |k| => Bit(k[i / 8], i % 8))
  }

  /** The mappers; the last one changes nothing and counts the bits with a value. */
  datatype Mapper = Zero | One | Flip | Count(value: bool)

  /** What a mapper does to a bucket, and so to each of its bits. */
  function Mapped(m: Mapper, b: bv8): bv8 {
    match m
    case Zero => 0
    case One => ONES
    case Flip => ONES ^ b
    case Count(_) => b
  }

  predicate MappedBit(m: Mapper, x: bool) {
    match m
    case Zero => false
    case One => true
    case Flip => !x
    case Count(_) => x
  }

  lemma MapsBits(m: Mapper, b: bv8, i: nat)
    requires i < 8
    ensures Bit(Mapped(m, b), i) <==> MappedBit(m, Bit(b, i))
  {
    FlippedBit(b, i);
  }

  lemma ReplacedBit(m: Mapper, b: bv8, lo: nat, hi: nat, i: nat)
    requires lo < hi <= 8 && i < 8
    ensures Bit(Select(b, Mapped(m, b), Mask(lo, hi - 1)), i) <==>
            if lo <= i < hi then MappedBit(m, Bit(b, i)) else Bit(b, i)
  {
    SelectBit(b, Mapped(m, b), Mask(lo, hi - 1), i);
    MaskBit(lo, hi - 1, i);
    MapsBits(m, b, i);
  }

  /** Every bit of the range is mapped and no other bit changes. */
  ghost predicate MappedRange(m: Mapper, s: seq<bool>, t: seq<bool>, lo: nat, hi: nat) {
    && |t| == |s|
    && forall i :: 0 <= i < |t| ==> t[i] == if lo <= i < hi then MappedBit(m, s[i]) else s[i]
  }

  /** How many bits of a range have a value. */
  ghost function Occurrences(s: seq<bool>, value: bool, lo: nat, hi: nat): nat
    requires hi <= |s|
  {
    if hi <= lo then 0 else Occurrences(s, value, lo, hi - 1) + if s[hi - 1] == value then 1 else 0
  }

  /** What mapping a range counts. */
  ghost function Counted(m: Mapper, s: seq<bool>, lo: nat, hi: nat): nat
    requires hi <= |s|
  {
    if m.Count? then Occurrences(s, m.value, lo, hi) else 0
  }

  predicate Place(k: seq<bv8>, q: nat, j: nat) {
    q < |k| && j < 8
  }

  /** The buckets hold the bits s. */
  ghost predicate Holding(k: seq<bv8>, s: seq<bool>) {
    |s| == 8 * |k| && forall q: nat, j: nat {:trigger Place(k, q, j)} :: Place(k, q, j) ==> s[8 * q + j] == Bit(k[q], j)
  }

  lemma {:induction false} OccurrencesInBucket(k: seq<bv8>, s: seq<bool>, value: bool, q: nat, lo: nat, hi: nat)
    requires Holding(k, s) && q < |k| && lo <= hi <= 8
    ensures Occurrences(s, value, 8 * q + lo, 8 * q + hi) == Matches(k[q], value, lo, hi)
  {
    if lo < hi {
      OccurrencesInBucket(k, s, value, q, lo, hi - 1);
      assert Place(k, q, hi - 1);
    }
  }

  lemma {:induction false} OccurrencesSplit(s: seq<bool>, value: bool, lo: nat, mid: nat, hi: nat)
    requires lo <= mid <= hi <= |s|
    ensures Occurrences(s, value, lo, hi) == Occurrences(s, value, lo, mid) + Occurrences(s, value, mid, hi)
  {
    if mid < hi {
      OccurrencesSplit(s, value, lo, mid, hi - 1);
    }
  }

  lemma {:induction false} OccurrencesSame(s: seq<bool>, t: seq<bool>, value: bool, lo: nat, hi: nat)
    requires |s| == |t| && hi <= |s| && forall i :: lo <= i < hi ==> s[i] == t[i]
    ensures Occurrences(s, value, lo, hi) == Occurrences(t, value, lo, hi)
  {
    if lo < hi {
      OccurrencesSame(s, t, value, lo, hi - 1);
    }
  }

  /** A range is mapped, with what is counted on the way. */
  ghost predicate Maps(m: Mapper, s: seq<bool>, t: seq<bool>, lo: nat, hi: nat, n: nat) {
    hi <= |s| && MappedRange(m, s, t, lo, hi) && n == Counted(m, s, lo, hi)
  }

  lemma MapsNothing(m: Mapper, s: seq<bool>, lo: nat)
    requires lo <= |s|
    ensures Maps(m, s, s, lo, lo, 0)
  {
  }

  /** Mapping one range and then the next is mapping both. */
  lemma MapsJoin(m: Mapper, s: seq<bool>, t: seq<bool>, u: seq<bool>, lo: nat, mid: nat, hi: nat, n: nat, c: nat)
    requires lo <= mid <= hi && Maps(m, s, t, lo, mid, n) && Maps(m, t, u, mid, hi, c)
    ensures Maps(m, s, u, lo, hi, n + c)
  {
    if m.Count? {
      OccurrencesSplit(s, m.value, lo, mid, hi);
      OccurrencesSame(s, t, m.value, mid, hi);
    }
  }

  /** A bucket's place among the bits. */
  lemma BitsOfBucket(k: seq<bv8>, q: nat, j: nat)
    requires q < |k| && j < 8
    ensures Bits(k)[8 * q + j] == Bit(k[q], j)
  {
    assert (8 * q + j) / 8 == q && (8 * q + j) % 8 == j;
  }

  lemma BucketReplaced(m: Mapper, k: seq<bv8>, q: nat, lo: nat, hi: nat, b: bv8)
    requires q < |k| && lo < hi <= 8
    requires forall j :: 0 <= j < 8 ==>
               (Bit(b, j) <==> if lo <= j < hi then MappedBit(m, Bit(k[q], j)) else Bit(k[q], j))
    ensures MappedRange(m, Bits(k), Bits(k[q := b]), 8 * q + lo, 8 * q + hi)
  {
    var s, t := Bits(k), Bits(k[q := b]);
    forall i | 0 <= i < |t| ensures t[i] == if 8 * q + lo <= i < 8 * q + hi then MappedBit(m, s[i]) else s[i] {
      var p, j := i / 8, i % 8;
      BitsOfBucket(k, p, j);
      BitsOfBucket(k[q := b], p, j);
    }
  }

  lemma BucketSelected(m: Mapper, k: seq<bv8>, q: nat, lo: nat, hi: nat)
    requires q < |k| && lo < hi <= 8
    ensures var b := Select(k[q], Mapped(m, k[q]), Mask(lo, hi - 1));
      MappedRange(m, Bits(k), Bits(k[q := b]), 8 * q + lo, 8 * q + hi)
  {
    var b := Select(k[q], Mapped(m, k[q]), Mask(lo, hi - 1));
    forall j | 0 <= j < 8 ensures Bit(b, j) <==> if lo <= j < hi then MappedBit(m, Bit(k[q], j)) else Bit(k[q], j) {
      ReplacedBit(m, k[q], lo, hi, j);
    }
    BucketReplaced(m, k, q, lo, hi, b);
  }

  lemma BucketCounted(m: Mapper, k: seq<bv8>, s: seq<bool>, q: nat, lo: nat, hi: nat)
    requires Holding(k, s) && q < |k| && lo < hi <= 8
    ensures Counted(m, s, 8 * q + lo, 8 * q + hi) == if m.Count? then Matches(k[q], m.value, lo, hi) else 0
  {
    if m.Count? {
      OccurrencesInBucket(k, s, m.value, q, lo, hi);
    }
  }

  /** Calls the mapper: the bucket's new value, and how many bits it counted under the mask. */
  method Map(m: Mapper, b: bv8, lo: nat, hi: nat) returns (r: bv8, n: nat)
    requires lo < hi <= 8
    ensures r == Mapped(m, b) && n == if m.Count? then Matches(b, m.value, lo, hi) else 0
  {
    r, n := Mapped(m, b), 0;
    if m.Count? {
      MaskedOnes(b, m.value, lo, hi);
      n := CountOnes(Masked(b, m.value, Mask(lo, hi - 1)));
    }
  }

  lemma HoldingBits(k: seq<bv8>)
    ensures Holding(k, Bits(k))
  {
    forall q: nat, j: nat | Place(k, q, j) ensures Bits(k)[8 * q + j] == Bit(k[q], j) {
      BitsOfBucket(k, q, j);
    }
  }

  lemma HoldingUnique(k: seq<bv8>, s: seq<bool>, t: seq<bool>)
    requires Holding(k, s) && Holding(k, t)
    ensures s == t
  {
    forall i | 0 <= i < |s| ensures s[i] == t[i] {
      var q, j := i / 8, i % 8;
      assert Place(k, q, j) && i == 8 * q + j;
    }
  }

  lemma HoldingIsBits(k: seq<bv8>, s: seq<bool>)
    requires Holding(k, s)
    ensures s == Bits(k)
  {
    HoldingBits(k);
    HoldingUnique(k, s, Bits(k));
  }

  /** Maps some bits of one bucket, which are those from lo to hi of the vector. */
  method MapPart(k: array<bv8>, q: nat, bit: nat, top: nat, m: Mapper, ghost s: seq<bool>, ghost lo: nat, ghost hi: nat)
      returns (n: nat, ghost t: seq<bool>)
    requires q < k.Length && bit < top <= 8 && lo == 8 * q + bit && hi == 8 * q + top && Holding(k[..], s)
    modifies k
    ensures Holding(k[..], t) && Maps(m, s, t, lo, hi, n)
  {
    HoldingIsBits(k[..], s);
    BucketSelected(m, k[..], q, bit, top);
    BucketCounted(m, k[..], s, q, bit, top);
    var mask := Mask(bit, top - 1);
    var b;
    b, n := Map(m, k[q], bit, top);
    Assign(k, q, Select(k[q], b, mask));
    t := Bits(k[..]);
    HoldingBits(k[..]);
  }

  method Assign(k: array<bv8>, q: nat, b: bv8)
    requires q < k.Length
    modifies k
    ensures k[..] == old(k[..])[q := b]
  {
    k[q] := b;
  }

  /** Maps a whole bucket. */
  method MapWhole(k: array<bv8>, q: nat, m: Mapper, ghost s: seq<bool>, ghost lo: nat, ghost hi: nat)
      returns (n: nat, ghost t: seq<bool>)
    requires q < k.Length && lo == 8 * q && hi == lo + 8 && Holding(k[..], s)
    modifies k
    ensures Holding(k[..], t) && Maps(m, s, t, lo, hi, n)
  {
    HoldingIsBits(k[..], s);
    BucketSelected(m, k[..], q, 0, 8);
    BucketCounted(m, k[..], s, q, 0, 8);
    SelectAll(k[q], Mapped(m, k[q]));
    var b;
    b, n := Map(m, k[q], 0, 8);
    Assign(k, q, b);
    t := Bits(k[..]);
    HoldingBits(k[..]);
  }

  /** Maps whole buckets from q on. */
  method MapBuckets(k: array<bv8>, q: nat, nBuckets: nat, m: Mapper, ghost s: seq<bool>, ghost lo: nat, ghost hi: nat)
      returns (n: nat, ghost t: seq<bool>)
    requires q + nBuckets <= k.Length && lo == 8 * q && hi == lo + 8 * nBuckets && Holding(k[..], s)
    modifies k
    ensures Holding(k[..], t) && Maps(m, s, t, lo, hi, n)
  {
    n, t := 0, s;
    ghost var mid := lo;
    MapsNothing(m, s, lo);
    for j := 0 to nBuckets
      invariant mid == lo + 8 * j && Holding(k[..], t) && Maps(m, s, t, lo, mid, n)
    {
      var c;
      ghost var u;
      c, u := MapWhole(k, q + j, m, t, mid, mid + 8);
      MapsJoin(m, s, t, u, lo, mid, mid + 8, n, c);
      n, t, mid := n + c, u, mid + 8;
    }
  }

  /** Maps whole buckets from q on, and the last fragment if there is one. */
  method MapAligned(k: array<bv8>, q: nat, len: nat, m: Mapper, ghost s: seq<bool>, ghost lo: nat, ghost hi: nat)
      returns (n: nat, ghost t: seq<bool>)
    requires lo == 8 * q && hi == lo + len <= 8 * k.Length && Holding(k[..], s)
    modifies k
    ensures Holding(k[..], t) && Maps(m, s, t, lo, hi, n)
  {
    var nBuckets := len / 8;
    var left := len - nBuckets * 8;
    ghost var mid := lo + 8 * nBuckets;
    n, t := MapBuckets(k, q, nBuckets, m, s, lo, mid);
    if left != 0 {
      var c;
      ghost var u;
      c, u := MapPart(k, q + nBuckets, 0, left, m, t, mid, hi);
      MapsJoin(m, s, t, u, lo, mid, hi, n, c);
      n, t := n + c, u;
    }
  }

  /** Maps the bits of a range, wherever it starts and ends. */
  method MapRange(k: array<bv8>, loc: nat, len: nat, m: Mapper, ghost s: seq<bool>, ghost end: nat)
      returns (n: nat, ghost t: seq<bool>)
    requires end == loc + len <= 8 * k.Length && Holding(k[..], s)
    modifies k
    ensures Holding(k[..], t) && Maps(m, s, t, loc, end, n)
  {
    if len == 0 {
      MapsNothing(m, s, loc);
      return 0, s;
    }
    var q, bit := loc / 8, loc % 8;
    if bit + len < 8 {
      n, t := MapPart(k, q, bit, bit + len, m, s, loc, end);
    } else {
      ghost var mid, u := 8 * q + 8, [];
      n, u := MapPart(k, q, bit, 8, m, s, loc, mid);
      var c;
      c, t := MapAligned(k, q + 1, len - (8 - bit), m, u, mid, end);
      MapsJoin(m, s, u, t, loc, mid, end, n, c);
      n := n + c;
    }
  }

  method InternalMap(k: array<bv8>, loc: nat, len: nat, m: Mapper) returns (n: nat)
    requires loc + len <= 8 * k.Length
    modifies k
    ensures Maps(m, old(Bits(k[..])), Bits(k[..]), loc, loc + len, n)
  {
    ghost var s, t := Bits(k[..]), [];
    HoldingBits(k[..]);
    n, t := MapRange(k, loc, len, m, s, loc + len);
    HoldingIsBits(k[..], t);
  }

  // ---------- the vector ----------

  /** A range of bits mapped one by one. */
  ghost function MapEach(m: Mapper, s: seq<bool>, lo: nat, hi: nat): (t: seq<bool>)
    ensures |t| == |s|
  {
    seq(|s|, i requires 0 <= i < |s| => if lo <= i < hi then MappedBit(m, s[i]) else s[i])
  }

  /** Flipping a range twice changes nothing. */
  lemma FlipTwice(s: seq<bool>, lo: nat, hi: nat)
    ensures MapEach(Flip, MapEach(Flip, s, lo, hi), lo, hi) == s
  {
  }

  /** Counting changes nothing. */
  lemma CountKeeps(s: seq<bool>, lo: nat, hi: nat, value: bool)
    ensures MapEach(Count(value), s, lo, hi) == s
  {
  }

  /** Setting a range does not depend on what it held. */
  lemma SetEach(s: seq<bool>, lo: nat, hi: nat, value: bool)
    requires lo <= hi <= |s|
    ensures MapEach(if value then One else Zero, s, lo, hi) == s[..lo] + seq(hi - lo, _ => value) + s[hi..]
  {
  }

  /** Flipping a range turns its ones into zeroes and its zeroes into ones. */
  lemma {:induction false} FlipSwapsCounts(s: seq<bool>, lo: nat, hi: nat, value: bool)
    requires lo <= hi <= |s|
    ensures Occurrences(MapEach(Flip, s, lo, hi), value, lo, hi) == Occurrences(s, !value, lo, hi)
  {
    if lo < hi {
      FlipSwapsCounts(s, lo, hi - 1, value);
      OccurrencesSame(MapEach(Flip, s, lo, hi), MapEach(Flip, s, lo, hi - 1), value, lo, hi - 1);
    }
  }

  /** The bits with either value make up the range. */
  lemma {:induction false} CountsAddUp(s: seq<bool>, lo: nat, hi: nat)
    requires lo <= hi <= |s|
    ensures Occurrences(s, true, lo, hi) + Occurrences(s, false, lo, hi) == hi - lo
  {
    if lo < hi {
      CountsAddUp(s, lo, hi - 1);
    }
  }

  lemma MappedPrefix(m: Mapper, s: seq<bool>, t: seq<bool>, lo: nat, hi: nat, n: nat, count: nat)
    requires Maps(m, s, t, lo, hi, n) && hi <= count <= |s|
    ensures t[..count] == MapEach(m, s[..count], lo, hi) && t[count..] == s[count..]
    ensures n == Counted(m, s[..count], lo, hi)
  {
    if m.Count? {
      OccurrencesPrefix(s, m.value, lo, hi, count);
    }
  }

  lemma {:induction false} OccurrencesPrefix(s: seq<bool>, value: bool, lo: nat, hi: nat, count: nat)
    requires hi <= count <= |s|
    ensures Occurrences(s[..count], value, lo, hi) == Occurrences(s, value, lo, hi)
  {
    if lo < hi {
      OccurrencesPrefix(s, value, lo, hi - 1, count);
    }
  }

  /** The first buckets set to one value, and so all of their bits. */
  method Fill(k: array<bv8>, nBuckets: nat, value: bool)
    requires nBuckets <= k.Length
    modifies k
    ensures Bits(k[..]) == seq(8 * nBuckets, _ => value) + old(Bits(k[..]))[8 * nBuckets..]
  {
    ghost var was := k[..];
    forall q | 0 <= q < nBuckets {
      k[q] := if value then ONES else 0;
    }
    FilledBits(was, k[..], nBuckets, value);
  }

  lemma FilledBits(k: seq<bv8>, k': seq<bv8>, n: nat, value: bool)
    requires n <= |k| == |k'|
    requires forall q :: 0 <= q < |k| ==> k'[q] == if q < n then (if value then ONES else 0) else k[q]
    ensures Bits(k') == seq(8 * n, _ => value) + Bits(k)[8 * n..]
  {
    forall i | 0 <= i < 8 * |k| ensures Bits(k')[i] == if i < 8 * n then value else Bits(k)[i] {
      FlippedBit(0, i % 8);
    }
  }

  lemma AllSet(s: seq<bool>, n: nat, count: nat, value: bool)
    requires n <= count <= |s| && s[..count][n..] == seq(count - n, _ => value)
    ensures (seq(n, _ => value) + s[n..])[..count] == seq(count, _ => value)
    ensures (seq(n, _ => value) + s[n..])[count..] == s[count..]
  {
    forall i | n <= i < count ensures s[i] == value {
      assert s[i] == s[..count][n..][i - n];
    }
  }

  /** New memory that starts like the old; what follows is anything. */
  method Reallocated(k: array<bv8>, n: nat, count: nat) returns (r: array<bv8>)
    requires count <= 8 * k.Length && count <= 8 * n
    ensures fresh(r) && r.Length == n && Bits(r[..])[..count] == Bits(k[..])[..count]
  {
    r := new bv8[n];
    forall q | 0 <= q < n && q < k.Length {
      r[q] := k[q];
    }
    SamePrefix(k[..], r[..], count);
  }

  lemma SamePrefix(k: seq<bv8>, r: seq<bv8>, count: nat)
    requires count <= 8 * |k| && count <= 8 * |r| && forall q :: 0 <= q < |k| && q < |r| ==> r[q] == k[q]
    ensures Bits(r)[..count] == Bits(k)[..count]
  {
  }

  class BitVector {
    var count: nat
    var capacity: nat
    var buckets: array<bv8>

    ghost predicate Valid()
      reads this
    {
      count <= capacity && buckets.Length == NumBuckets(capacity)
    }

    /** The bits that count. */
    ghost function Contents(): (s: seq<bool>)
      reads this, buckets
      requires Valid()
    {
      Bits(buckets[..])[..count]
    }

    constructor ()
      ensures Valid() && fresh(buckets) && Contents() == []
    {
      count, capacity := 0, RoundUpCapacity(1);
      buckets := new bv8[NumBuckets(RoundUpCapacity(1))];
    }

    method GetBitAtIndex(idx: nat) returns (x: bool)
      requires Valid() && idx < count
      ensures x == Contents()[idx]
    {
      BitByShift(buckets[idx / 8], idx % 8);
      x := (buckets[idx / 8] >> (7 - idx % 8)) & 1 == 1;
    }

    /** Maps a range of the bits that count, and no others. */
    method MapBits(loc: nat, len: nat, m: Mapper) returns (n: nat)
      requires Valid() && loc + len <= count
      modifies buckets
      ensures Contents() == MapEach(m, old(Contents()), loc, loc + len)
      ensures Bits(buckets[..])[count..] == old(Bits(buckets[..]))[count..]
      ensures n == Counted(m, old(Contents()), loc, loc + len)
    {
      ghost var s := Bits(buckets[..]);
      n := InternalMap(buckets, loc, len, m);
      MappedPrefix(m, s, Bits(buckets[..]), loc, loc + len, n, count);
    }

    /** Counting goes through the mapper but changes nothing. */
    method GetCountOfBit(loc: nat, len: nat, value: bool) returns (n: nat)
      requires Valid() && loc + len <= count
      modifies buckets
      ensures Bits(buckets[..]) == old(Bits(buckets[..]))
      ensures n == Occurrences(Contents(), value, loc, loc + len)
    {
      if len == 0 {
        return 0;
      }
      ghost var s := Bits(buckets[..]);
      n := MapBits(loc, len, Count(value));
      CountKeeps(s[..count], loc, loc + len, value);
      assert Bits(buckets[..]) == Contents() + Bits(buckets[..])[count..] && s == s[..count] + s[count..];
    }

    /** Sets the bits of a range and no others. */
    method SetBits(loc: nat, len: nat, value: bool)
      requires Valid() && loc + len <= count
      modifies buckets
      ensures Contents() == old(Contents())[..loc] + seq(len, _ => value) + old(Contents())[loc + len..]
      ensures Bits(buckets[..])[count..] == old(Bits(buckets[..]))[count..]
    {
      SetEach(Contents(), loc, loc + len, value);
      if len == 0 {
        return;
      }
      var n := MapBits(loc, len, if value then One else Zero);
    }

    method FlipBits(loc: nat, len: nat)
      requires Valid() && loc + len <= count
      modifies buckets
      ensures Contents() == MapEach(Flip, old(Contents()), loc, loc + len)
      ensures Bits(buckets[..])[count..] == old(Bits(buckets[..]))[count..]
    {
      if len == 0 {
        return;
      }
      var n := MapBits(loc, len, Flip);
    }

    /** Shortens the vector, or lengthens it with zeroes, whatever the new memory holds. */
    method SetCount(newCount: nat)
      requires Valid()
      modifies this, buckets
      ensures Valid() && (buckets == old(buckets) || fresh(buckets))
      ensures Contents() == if newCount <= old(count) then old(Contents())[..newCount]
                            else old(Contents()) + seq(newCount - old(count), _ => false)
    {
      if count < newCount {
        Grow(newCount - count);
        ghost var s := Bits(buckets[..]);
        var n := InternalMap(buckets, count, newCount - count, Zero);
        MappedPrefix(Zero, s, Bits(buckets[..]), count, newCount, n, newCount);
      }
      count := newCount;
    }

    /** Moves to memory for more bits; the contents stay. */
    method Grow(numNewValues: nat)
      requires Valid()
      modifies this`capacity, this`buckets
      ensures Valid() && fresh(buckets) && count + numNewValues <= capacity
      ensures Contents() == old(Contents())
    {
      capacity := RoundUpCapacity(count + numNewValues);
      buckets := Reallocated(buckets, NumBuckets(capacity), count);
    }

    /** Sets every bit that counts: the last fragment first, then the whole buckets at once. */
    method SetAllBits(value: bool)
      requires Valid()
      modifies buckets
      ensures Contents() == seq(count, _ => value)
      ensures Bits(buckets[..])[count..] == old(Bits(buckets[..]))[count..]
    {
      var nBuckets := count / 8;
      var leftover := count - nBuckets * 8;
      if 0 < leftover {
        SetBits(nBuckets * 8, leftover, value);
      }
      AllSet(Bits(buckets[..]), 8 * nBuckets, count, value);
      Fill(buckets, nBuckets, value);
    }
  }
}
