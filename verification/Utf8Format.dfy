/**
  What the UTF-8 converters are for: UTF-8 as sections 3 and 4 of RFC 3629 give
  it, surrogate pairs as section 2 of RFC 2781 gives them, and the round trips
  between the two.
*/
module Utf8Format {
  import opened Utf8Steps

  type Byte = b: int | 0 <= b < 0x100
  type Unit = u: int | 0 <= u < 0x1_0000
  type Scalar = c: int | 0 <= c <= 0x10_FFFF && !(0xD800 <= c <= 0xDFFF)

  // ---------- one character ----------

  /** Section 3 of RFC 3629, with the longer forms it withdrew for larger values. */
  function Encoding(c: nat): (bs: seq<Byte>)
    requires c <= 0x7FFF_FFFF
    ensures 0 < |bs| <= 6
  {
    if c < 0x80 then [c]
    else if c < 0x800 then [0xC0 + c / 0x40, 0x80 + c % 0x40]
    else if c < 0x1_0000 then [0xE0 + c / 0x40 / 0x40, 0x80 + c / 0x40 % 0x40, 0x80 + c % 0x40]
    else if c < 0x20_0000 then
      [0xF0 + c / 0x40 / 0x40 / 0x40, 0x80 + c / 0x40 / 0x40 % 0x40, 0x80 + c / 0x40 % 0x40, 0x80 + c % 0x40]
    else if c < 0x400_0000 then
      [0xF8 + c / 0x40 / 0x40 / 0x40 / 0x40, 0x80 + c / 0x40 / 0x40 / 0x40 % 0x40, 0x80 + c / 0x40 / 0x40 % 0x40,
       0x80 + c / 0x40 % 0x40, 0x80 + c % 0x40]
    else
      [0xFC + c / 0x40 / 0x40 / 0x40 / 0x40 / 0x40, 0x80 + c / 0x40 / 0x40 / 0x40 / 0x40 % 0x40,
       0x80 + c / 0x40 / 0x40 / 0x40 % 0x40, 0x80 + c / 0x40 / 0x40 % 0x40, 0x80 + c / 0x40 % 0x40, 0x80 + c % 0x40]
  }

  predicate IsTail(b: Byte) {
    0x80 <= b <= 0xBF
  }

  /** The grammar of section 4 of RFC 3629: UTF8-1, UTF8-2, UTF8-3 and UTF8-4. */
  predicate LegalChar(bs: seq<Byte>) {
    || (|bs| == 1 && bs[0] <= 0x7F)
    || (|bs| == 2 && 0xC2 <= bs[0] <= 0xDF && IsTail(bs[1]))
    || (|bs| == 3 && IsTail(bs[2]) &&
        (|| (bs[0] == 0xE0 && 0xA0 <= bs[1] <= 0xBF)
         || (0xE1 <= bs[0] <= 0xEC && IsTail(bs[1]))
         || (bs[0] == 0xED && 0x80 <= bs[1] <= 0x9F)
         || (0xEE <= bs[0] <= 0xEF && IsTail(bs[1]))))
    || (|bs| == 4 && IsTail(bs[2]) && IsTail(bs[3]) &&
        (|| (bs[0] == 0xF0 && 0x90 <= bs[1] <= 0xBF)
         || (0xF1 <= bs[0] <= 0xF3 && IsTail(bs[1]))
         || (bs[0] == 0xF4 && 0x80 <= bs[1] <= 0x8F)))
  }

  /** The number whose bits the lead byte, given its mark, and the tail bytes hold. */
  function Join2(a: int, b: int): int {
    (a - 0xC0) * 0x40 + (b - 0x80)
  }

  function Join3(a: int, b: int, c: int): int {
    ((a - 0xE0) * 0x40 + (b - 0x80)) * 0x40 + (c - 0x80)
  }

  function Join4(a: int, b: int, c: int, d: int): int {
    (((a - 0xF0) * 0x40 + (b - 0x80)) * 0x40 + (c - 0x80)) * 0x40 + (d - 0x80)
  }

  /** The character a legal sequence stands for. */
  function Value(bs: seq<Byte>): (c: Scalar)
    requires LegalChar(bs)
  {
    if |bs| == 1 then bs[0]
    else if |bs| == 2 then Join2(bs[0], bs[1])
    else if |bs| == 3 then Join3(bs[0], bs[1], bs[2])
    else Join4(bs[0], bs[1], bs[2], bs[3])
  }

  /** What the first byte says of the length: the table of trailing bytes. */
  function TrailingBytes(b: Byte): nat {
    if b < 0xC0 then 0 else if b < 0xE0 then 1 else if b < 0xF0 then 2
    else if b < 0xF8 then 3 else if b < 0xFC then 4 else 5
  }

  lemma EncodingIsLegal(c: Scalar)
    ensures LegalChar(Encoding(c)) && Value(Encoding(c)) == c
    ensures |Encoding(c)| == 1 + TrailingBytes(Encoding(c)[0])
  {
    var q, p := c / 0x40, c / 0x40 / 0x40;
    assert c == q * 0x40 + c % 0x40 && q == p * 0x40 + q % 0x40 && p == p / 0x40 * 0x40 + p % 0x40;
  }

  lemma Digits(q: int, r: int)
    requires 0 <= r < 0x40
    ensures (q * 0x40 + r) / 0x40 == q && (q * 0x40 + r) % 0x40 == r
  {
  }

  lemma Encoding2(a: int, b: int)
    requires 0xC2 <= a <= 0xDF && 0x80 <= b <= 0xBF
    ensures Encoding(Join2(a, b)) == [a, b]
  {
    Digits(a - 0xC0, b - 0x80);
  }

  lemma Encoding3(a: int, b: int, c: int)
    requires 0xE0 <= a <= 0xEF && 0x80 <= b <= 0xBF && 0x80 <= c <= 0xBF && (a == 0xE0 ==> 0xA0 <= b)
    ensures Encoding(Join3(a, b, c)) == [a, b, c]
  {
    Digits((a - 0xE0) * 0x40 + (b - 0x80), c - 0x80);
    Digits(a - 0xE0, b - 0x80);
  }

  lemma Encoding4(a: int, b: int, c: int, d: int)
    requires 0xF0 <= a <= 0xF4 && 0x80 <= b <= 0xBF && 0x80 <= c <= 0xBF && 0x80 <= d <= 0xBF
    requires a == 0xF0 ==> 0x90 <= b
    ensures Encoding(Join4(a, b, c, d)) == [a, b, c, d]
  {
    var p := (a - 0xF0) * 0x40 + (b - 0x80);
    var q := p * 0x40 + (c - 0x80);
    var v := q * 0x40 + (d - 0x80);
    Digits(q, d - 0x80);
    Digits(p, c - 0x80);
    Digits(a - 0xF0, b - 0x80);
    assert 0x1_0000 <= v < 0x20_0000;
    assert v / 0x40 == q && q / 0x40 == p;
  }

  /** Encoding is the only inverse of reading: each legal sequence is the encoding of what it stands for. */
  lemma LegalIsEncoding(bs: seq<Byte>)
    requires LegalChar(bs)
    ensures Encoding(Value(bs)) == bs && |bs| == 1 + TrailingBytes(bs[0])
  {
    if |bs| == 2 {
      Encoding2(bs[0], bs[1]);
    } else if |bs| == 3 {
      Encoding3(bs[0], bs[1], bs[2]);
    } else if |bs| == 4 {
      Encoding4(bs[0], bs[1], bs[2], bs[3]);
    }
  }

  predicate IsHigh(u: Unit) {
    0xD800 <= u <= 0xDBFF
  }

  predicate IsLow(u: Unit) {
    0xDC00 <= u <= 0xDFFF
  }

  /** Section 2.1 of RFC 2781. */
  function UnitsOf(c: Scalar): (us: seq<Unit>)
    ensures |us| == if c < 0x1_0000 then 1 else 2
  {
    if c < 0x1_0000 then [c]
    else [0xD800 + (c - 0x1_0000) / 0x400, 0xDC00 + (c - 0x1_0000) % 0x400]
  }

  /** Section 2.2 of RFC 2781. */
  function FromPair(high: int, low: int): int {
    0x1_0000 + (high - 0xD800) * 0x400 + (low - 0xDC00)
  }

  /** The first scalar of a text; an unpaired surrogate stops. */
  function NextUnit(s: seq<Unit>): (r: Step<Scalar>)
    ensures r.Take? ==> 0 < r.width <= |s| && s[..r.width] == UnitsOf(r.scalar)
  {
    if s == [] then Stop
    else if IsHigh(s[0]) then
      if 1 < |s| && IsLow(s[1]) then Take(FromPair(s[0], s[1]), 2) else Stop
    else if IsLow(s[0]) then Stop
    else Take(s[0], 1)
  }

  /** The first character of legal bytes; a lone 0xA9 is let through as a replacement character. */
  function NextChar(b: seq<Byte>): (r: Step<Scalar>)
    ensures r.Take? ==> 0 < r.width <= |b|
  {
    if b == [] then Stop
    else
      var n := 1 + TrailingBytes(b[0]);
      if n <= |b| && LegalChar(b[..n]) then Take(Value(b[..n]), n)
      else if b[0] == 0xA9 then Take(0xFFFD, 1)
      else Stop
  }

  lemma NextUnitOfUnits(c: Scalar, rest: seq<Unit>)
    ensures NextUnit(UnitsOf(c) + rest) == Take(c, |UnitsOf(c)|)
  {
  }

  lemma NextCharOfEncoding(c: Scalar, rest: seq<Byte>)
    ensures NextChar(Encoding(c) + rest) == Take(c, |Encoding(c)|)
  {
    EncodingIsLegal(c);
    assert (Encoding(c) + rest)[..|Encoding(c)|] == Encoding(c);
  }

  // ---------- texts ----------

  /** The encoding of a scalar. */
  function EncodeScalar(c: Scalar): seq<Byte> {
    Encoding(c)
  }

  function EncodeAll(cs: seq<Scalar>): seq<Byte> {
    FlatMap(EncodeScalar, cs)
  }

  function UnitsAll(cs: seq<Scalar>): seq<Unit> {
    FlatMap(UnitsOf, cs)
  }

  /** The scalars of the longest prefix that is well-formed UTF-16. */
  function ScalarsOf(s: seq<Unit>): seq<Scalar> {
    Scalars(Tokens(NextUnit, s))
  }

  /** The characters that can be taken from the front of some bytes, one after the other. */
  function CharsOf(b: seq<Byte>): seq<Token<Scalar>> {
    Tokens(NextChar, b)
  }

  /** Every surrogate is one of a pair, high then low. */
  ghost predicate Paired(s: seq<Unit>) {
    forall i :: 0 <= i < |s| ==> PairedAt(s, i)
  }

  predicate PairedAt(s: seq<Unit>, i: nat)
    requires i < |s|
  {
    && (IsHigh(s[i]) ==> i + 1 < |s| && IsLow(s[i + 1]))
    && (IsLow(s[i]) ==> 0 < i && IsHigh(s[i - 1]))
  }

  /** A surrogate at p that is not the first of a pair. */
  predicate Unpaired(s: seq<Unit>, p: nat)
    requires p < |s|
  {
    IsLow(s[p]) || (IsHigh(s[p]) && !(p + 1 < |s| && IsLow(s[p + 1])))
  }

  /** UTF8-octets of section 4 of RFC 3629: any number of legal characters. */
  ghost predicate Legal(b: seq<Byte>)
    decreases |b|
  {
    b == [] || exists n :: 0 < n <= |b| && LegalChar(b[..n]) && Legal(b[n..])
  }

  lemma UnitsWriteBack()
    ensures Writes(NextUnit, UnitsOf)
  {
  }

  /** The scalars found make up the text as far as it is well formed, and no further. */
  lemma ScalarsCover(s: seq<Unit>)
    ensures var us := UnitsAll(ScalarsOf(s));
      && |us| == Widths(Tokens(NextUnit, s)) <= |s| && s[..|us|] == us && Paired(us)
      && (|us| < |s| ==> Unpaired(s, |us|))
  {
    UnitsWriteBack();
    WriteBack(NextUnit, UnitsOf, s);
    UnitsArePaired(ScalarsOf(s));
    StopsUnpaired(s, Widths(Tokens(NextUnit, s)));
  }

  lemma StopsUnpaired(s: seq<Unit>, p: nat)
    requires p <= |s| && NextUnit(s[p..]).Stop?
    ensures p < |s| ==> Unpaired(s, p)
  {
  }

  lemma {:induction false} UnitsArePaired(cs: seq<Scalar>)
    ensures Paired(UnitsAll(cs))
  {
    if cs != [] {
      UnitsArePaired(cs[1..]);
      PairedJoin(cs[0], UnitsAll(cs[1..]));
    }
  }

  lemma PairedJoin(c: Scalar, s: seq<Unit>)
    requires Paired(s)
    ensures Paired(UnitsOf(c) + s)
  {
    var us := UnitsOf(c);
    var t := us + s;
    forall i | 0 <= i < |t| ensures PairedAt(t, i) {
      if |us| <= i {
        assert PairedAt(s, i - |us|);
      }
    }
  }

  /** Well-formed UTF-16 is exactly what the scalars found make up. */
  lemma PairedIff(s: seq<Unit>)
    ensures Paired(s) <==> UnitsAll(ScalarsOf(s)) == s
  {
    ScalarsCover(s);
    var us := UnitsAll(ScalarsOf(s));
    assert 0 < |us| ==> PairedAt(us, |us| - 1);
    assert |us| < |s| ==> !PairedAt(s, |us|);
    assert |us| == |s| ==> s[..|us|] == s;
  }

  lemma UnitsRead()
    ensures Reads(NextUnit, UnitsOf)
  {
    forall c: Scalar, rest: seq<Unit> ensures ReadsAs(NextUnit, UnitsOf, c, rest) {
      NextUnitOfUnits(c, rest);
    }
  }

  /** The units of any scalars are taken back as those scalars. */
  lemma UnitsReadBack(cs: seq<Scalar>)
    ensures ScalarsOf(UnitsAll(cs)) == cs && Widths(Tokens(NextUnit, UnitsAll(cs))) == |UnitsAll(cs)|
  {
    UnitsRead();
    ReadBack(NextUnit, UnitsOf, cs);
  }

  lemma EncodingsRead()
    ensures Reads(NextChar, EncodeScalar)
  {
    forall c: Scalar, rest: seq<Byte> ensures ReadsAs(NextChar, EncodeScalar, c, rest) {
      NextCharOfEncoding(c, rest);
    }
  }

  /** Decoding what was encoded gives back every scalar, and takes every byte. */
  lemma DecodeEncode(cs: seq<Scalar>)
    ensures Scalars(CharsOf(EncodeAll(cs))) == cs
    ensures Widths(CharsOf(EncodeAll(cs))) == |EncodeAll(cs)|
  {
    EncodingsRead();
    ReadBack(NextChar, EncodeScalar, cs);
  }

  lemma LegalStep(b: seq<Byte>)
    requires Legal(b) && b != []
    ensures var t := NextChar(b);
      t.Take? && 0 < t.width <= |b| && EncodeScalar(t.scalar) == b[..t.width] && Legal(b[t.width..])
  {
    var n :| 0 < n <= |b| && LegalChar(b[..n]) && Legal(b[n..]);
    LegalIsEncoding(b[..n]);
  }

  /** The scalars found make up all of the bytes. */
  ghost predicate ReEncodes(b: seq<Byte>) {
    EncodeAll(Scalars(CharsOf(b))) == b && Widths(CharsOf(b)) == |b|
  }

  lemma ReEncodesJoin(b: seq<Byte>, next: seq<Byte> -> Step<Scalar>, out: Scalar -> seq<Byte>, c: Scalar, w: nat)
    requires next(b) == Take(c, w) && 0 < w <= |b| && out(c) == b[..w]
    requires var ts := Tokens(next, b[w..]); FlatMap(out, Scalars(ts)) == b[w..] && Widths(ts) == |b| - w
    ensures var ts := Tokens(next, b); FlatMap(out, Scalars(ts)) == b && Widths(ts) == |b|
  {
    TokensStep(next, b, c, w);
    var ts := Tokens(next, b[w..]);
    assert ([Token(c, w)] + ts)[1..] == ts;
    assert b == b[..w] + b[w..];
  }

  /** Encoding what was decoded gives back legal bytes, all of them. */
  lemma {:induction false} EncodeDecode(b: seq<Byte>)
    requires Legal(b)
    ensures ReEncodes(b)
    decreases |b|
  {
    if b != [] {
      LegalStep(b);
      var t := NextChar(b);
      EncodeDecode(b[t.width..]);
      ReEncodesJoin(b, NextChar, EncodeScalar, t.scalar, t.width);
    }
  }

  /** Legal bytes are exactly the encodings. */
  lemma LegalIff(b: seq<Byte>)
    ensures Legal(b) <==> exists cs :: EncodeAll(cs) == b
  {
    if Legal(b) {
      EncodeDecode(b);
      assert EncodeAll(Scalars(CharsOf(b))) == b;
    }
    forall cs | EncodeAll(cs) == b ensures Legal(b) {
      EncodedIsLegal(cs);
    }
  }

  lemma {:induction false} EncodedIsLegal(cs: seq<Scalar>)
    ensures Legal(EncodeAll(cs))
  {
    if cs != [] {
      EncodedIsLegal(cs[1..]);
      LegalJoin(cs[0], EncodeAll(cs[1..]));
    }
  }

  lemma LegalJoin(c: Scalar, rest: seq<Byte>)
    requires Legal(rest)
    ensures Legal(Encoding(c) + rest)
  {
    var bs := Encoding(c);
    EncodingIsLegal(c);
    assert (bs + rest)[..|bs|] == bs && (bs + rest)[|bs|..] == rest;
  }

  /** What is taken does not depend on what comes after it. */
  lemma NextCharIsLocal()
    ensures Local(NextChar)
  {
    forall b: seq<Byte>, n: nat | n <= |b| && NextChar(b).Take? && NextChar(b).width <= n
      ensures NextChar(b[..n]) == NextChar(b)
    {
      NextCharOfPrefix(b, n);
    }
  }

  lemma NextCharOfPrefix(b: seq<Byte>, n: nat)
    requires NextChar(b).Take? && NextChar(b).width <= n <= |b|
    ensures NextChar(b[..n]) == NextChar(b)
  {
    var m := 1 + TrailingBytes(b[0]);
    assert m <= n ==> b[..n][..m] == b[..m];
  }
}
