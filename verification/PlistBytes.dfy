/** Byte strings and big-endian integers. */
module PlistBytes {

  type Byte = x: int | 0 <= x < 256
  type Bytes = seq<Byte>

  const SPAN64: int := 0x1_0000_0000_0000_0000
  const LONG_MAX: int := 0x7fff_ffff_ffff_ffff

  function Pow256(n: nat): (p: nat)
    ensures p > 0
  {
    if n == 0 then 1 else 256 * Pow256(n - 1)
  }

  /** The n low-order bytes of v, most significant first. */
  function BigEndian(v: nat, n: nat): (s: Bytes)
    ensures |s| == n
  {
    if n == 0 then [] else BigEndian(v / 256, n - 1) + [v % 256]
  }

  function FromBigEndian(s: Bytes): nat {
    if s == [] then 0 else 256 * FromBigEndian(s[..|s| - 1]) + s[|s| - 1]
  }

  /** What a 64-bit accumulator holds after shifting in all the bytes. */
  function Read64(s: Bytes): nat {
    FromBigEndian(s) % SPAN64
  }

  /** How many bytes a value needs; 0 for 0. */
  function ByteLength(v: nat): nat {
    if v == 0 then 0 else 1 + ByteLength(v / 256)
  }

  lemma {:induction false} BigEndianRoundTrip(v: nat, n: nat)
    requires v < Pow256(n)
    ensures FromBigEndian(BigEndian(v, n)) == v
  {
    if n > 0 {
      BigEndianRoundTrip(v / 256, n - 1);
      assert BigEndian(v, n)[..n - 1] == BigEndian(v / 256, n - 1);
    }
  }

  lemma {:induction false} ByteLengthBounds(v: nat)
    ensures v < Pow256(ByteLength(v))
    ensures v > 0 ==> ByteLength(v) > 0 && Pow256(ByteLength(v) - 1) <= v
  {
    if v >= 256 {
      ByteLengthBounds(v / 256);
    } else if v > 0 {
      assert Pow256(0) == 1 && ByteLength(v) == 1;
    }
  }

  lemma {:induction false} Pow256Monotone(a: nat, b: nat)
    requires a <= b
    ensures Pow256(a) <= Pow256(b)
  {
    if a < b {
      Pow256Monotone(a, b - 1);
    }
  }

  lemma ByteLengthAtMost(v: nat, n: nat)
    requires v < Pow256(n)
    ensures ByteLength(v) <= n
  {
    ByteLengthBounds(v);
    var m := ByteLength(v);
    if 0 < m && n <= m - 1 {
      Pow256Monotone(n, m - 1);
    }
  }

  lemma Pow256Values()
    ensures Pow256(0) == 1 && Pow256(1) == 0x100 && Pow256(2) == 0x1_0000
    ensures Pow256(4) == 0x1_0000_0000 && Pow256(8) == SPAN64
  {
    assert Pow256(3) == 0x100_0000;
    assert Pow256(6) == 256 * 256 * Pow256(4);
    assert Pow256(8) == 256 * 256 * Pow256(6);
  }

  /** A big-endian field wide enough for its value is read back exactly. */
  lemma ReadsBack64(v: nat, n: nat)
    requires v < Pow256(n) && v < SPAN64
    ensures Read64(BigEndian(v, n)) == v
  {
    BigEndianRoundTrip(v, n);
  }

  lemma ShiftIn(acc: nat, b: Byte)
    ensures (256 * (acc % SPAN64) + b) % SPAN64 == (256 * acc + b) % SPAN64
  {
    var q, r := acc / SPAN64, acc % SPAN64;
    assert acc == q * SPAN64 + r;
    assert 256 * acc + b == 256 * r + b + 256 * q * SPAN64;
    ModShift(256 * r + b, 256 * q);
  }

  lemma {:induction false} ModShift(x: nat, k: nat)
    ensures (x + k * SPAN64) % SPAN64 == x % SPAN64
  {
    if k > 0 {
      ModShift(x, k - 1);
      var y := x + (k - 1) * SPAN64;
      assert x + k * SPAN64 == y + SPAN64;
    }
  }

  /** The byte-accumulating loop of the reader: only the last 64 bits are significant. */
  method Accumulate(data: Bytes, at: nat, n: nat) returns (v: nat)
    requires at + n <= |data|
    ensures v == Read64(data[at..at + n])
  {
    v := 0;
    for i := 0 to n
      invariant v == Read64(data[at..at + i])
    {
      ShiftIn(FromBigEndian(data[at..at + i]), data[at + i]);
      assert data[at..at + i + 1][..i] == data[at..at + i];
      v := (256 * v + data[at + i]) % SPAN64;
    }
  }

  /** The mask-shifting loop of the writer: bytes are added while value bits remain above the mask. */
  method CountBytes(v: nat) returns (n: nat)
    ensures n == ByteLength(v)
  {
    n := 0;
    var p := 1;
    ByteLengthBounds(v);
    while p <= v
      invariant p == Pow256(n)
      invariant n <= ByteLength(v)
      decreases ByteLength(v) - n
    {
      if n == ByteLength(v) {
        assert false;
      }
      n := n + 1;
      p := 256 * p;
    }
    if n < ByteLength(v) {
      Pow256Monotone(n, ByteLength(v) - 1);
      assert false;
    }
  }

  // ---------- byte strings laid end to end ----------

  lemma SliceOfMiddle(a: Bytes, b: Bytes, c: Bytes, x: nat, y: nat)
    requires x <= y <= |b|
    ensures (a + b + c)[|a| + x..|a| + y] == b[x..y]
  {
  }

  /** The product n * size, as the length of n fields laid end to end. */
  function Fields(n: nat, size: nat): nat {
    if n == 0 then 0 else Fields(n - 1, size) + size
  }

  lemma {:induction false} FieldsIsProduct(n: nat, size: nat)
    ensures Fields(n, size) == n * size
  {
    if n > 0 {
      FieldsIsProduct(n - 1, size);
      assert n * size == (n - 1) * size + size;
    }
  }

  lemma {:induction false} FieldsMonotone(a: nat, b: nat, size: nat)
    requires a <= b
    ensures Fields(a, size) <= Fields(b, size)
  {
    if a < b {
      FieldsMonotone(a, b - 1, size);
    }
  }

  function Concat(cs: seq<Bytes>): Bytes {
    if cs == [] then [] else Concat(cs[..|cs| - 1]) + cs[|cs| - 1]
  }

  /** Where chunk i starts. */
  function Start(cs: seq<Bytes>, i: nat): nat
    requires i <= |cs|
  {
    |Concat(cs[..i])|
  }

  lemma StartNext(cs: seq<Bytes>, i: nat)
    requires i < |cs|
    ensures Start(cs, i + 1) == Start(cs, i) + |cs[i]|
    ensures Concat(cs[..i + 1]) == Concat(cs[..i]) + cs[i]
  {
    assert cs[..i + 1][..i] == cs[..i];
  }

  /** Chunk i stands where it starts. */
  lemma {:induction false} ChunkAt(cs: seq<Bytes>, i: nat)
    requires i < |cs|
    ensures Start(cs, i) + |cs[i]| <= |Concat(cs)|
    ensures Concat(cs)[Start(cs, i)..Start(cs, i) + |cs[i]|] == cs[i]
    decreases |cs|
  {
    var n := |cs| - 1;
    assert cs[..n][..i] == cs[..i];
    if i < n {
      ChunkAt(cs[..n], i);
      var c := Concat(cs[..n]);
      assert Concat(cs)[Start(cs, i)..Start(cs, i) + |cs[i]|] == c[Start(cs, i)..Start(cs, i) + |cs[i]|];
    }
  }

  function FieldsOf(vs: seq<nat>, size: nat): (cs: seq<Bytes>)
    ensures |cs| == |vs| && forall i :: 0 <= i < |vs| ==> |cs[i]| == size
  {
    seq(|vs|, i requires 0 <= i < |vs| => BigEndian(vs[i], size))
  }

  lemma {:induction false} UniformStart(cs: seq<Bytes>, size: nat, i: nat)
    requires i <= |cs| && forall j :: 0 <= j < |cs| ==> |cs[j]| == size
    ensures Start(cs, i) == Fields(i, size)
  {
    if i > 0 {
      UniformStart(cs, size, i - 1);
      StartNext(cs, i - 1);
    }
  }

  /** The i-th of a row of big-endian fields. */
  lemma FieldAt(vs: seq<nat>, size: nat, i: nat)
    requires i < |vs|
    ensures Fields(i, size) + size <= |Concat(FieldsOf(vs, size))|
    ensures Concat(FieldsOf(vs, size))[Fields(i, size)..Fields(i, size) + size] == BigEndian(vs[i], size)
  {
    var cs := FieldsOf(vs, size);
    UniformStart(cs, size, i);
    ChunkAt(cs, i);
  }

  lemma FieldsLength(vs: seq<nat>, size: nat)
    ensures |Concat(FieldsOf(vs, size))| == Fields(|vs|, size)
  {
    var cs := FieldsOf(vs, size);
    UniformStart(cs, size, |vs|);
    assert cs[..|vs|] == cs;
  }

  /** The i-th field of a row of fields between other bytes. */
  lemma FieldInside(a: Bytes, vs: seq<nat>, size: nat, t: Bytes, i: nat)
    requires i < |vs|
    ensures var s := a + Concat(FieldsOf(vs, size)) + t; var at := |a| + Fields(i, size);
            at + size <= |s| && s[at..at + size] == BigEndian(vs[i], size)
  {
    FieldAt(vs, size, i);
    SliceOfMiddle(a, Concat(FieldsOf(vs, size)), t, Fields(i, size), Fields(i, size) + size);
  }
}
