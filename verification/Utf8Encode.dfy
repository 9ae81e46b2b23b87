/**
  Encoding UTF-16 as UTF-8 in CFBuiltinConverters.c, with default flags: strict.
*/
module Utf8Encode {
  import opened Utf8Steps
  import opened Utf8Format
  import opened Utf8Buffer

  // ---------- encoding ----------

  function BytesToWrite(ch: nat): (n: nat)
    ensures ch <= 0x7FFF_FFFF ==> n == |Encoding(ch)|
  {
    if ch < 0x80 then 1
    else if ch < 0x800 then 2
    else if ch < 0x1_0000 then 3
    else if ch < 0x20_0000 then 4
    else if ch < 0x400_0000 then 5
    else if ch <= 0x7FFF_FFFF then 6
    else 0
  }

  function FirstByteMark(n: nat): nat
    requires 0 < n <= 6
  {
    if n == 1 then 0 else if n == 2 then 0xC0 else if n == 3 then 0xE0
    else if n == 4 then 0xF0 else if n == 5 then 0xF8 else 0xFC
  }

  /** A character shifted right by six bits, k times. */
  function Shift(c: nat, k: nat): nat {
    if k == 0 then c else Shift(c, k - 1) / 0x40
  }

  /** The bytes of an encoding, six bits each behind the first. */
  lemma EncodingAt(c: nat, i: nat)
    requires c <= 0x7FFF_FFFF && i < |Encoding(c)|
    ensures var n := |Encoding(c)|;
      Encoding(c)[i] == if i == 0 then FirstByteMark(n) + Shift(c, n - 1) else 0x80 + Shift(c, n - 1 - i) % 0x40
  {
    assert Shift(c, 1) == c / 0x40;
    assert Shift(c, 2) == Shift(c, 1) / 0x40;
    assert Shift(c, 3) == Shift(c, 2) / 0x40;
    assert Shift(c, 4) == Shift(c, 3) / 0x40;
    assert Shift(c, 5) == Shift(c, 4) / 0x40;
  }

  /** Writes one character at an index of the output, last byte first, if it fits. */
  method ToUTF8Core(c: nat, bytes: array<Byte>, at: nat, maxByteLen: nat) returns (n: nat)
    requires c <= 0x7FFF_FFFF && at + maxByteLen <= bytes.Length
    modifies bytes
    ensures n == if maxByteLen < |Encoding(c)| then 0 else |Encoding(c)|
    ensures Wrote(old(bytes[..]), bytes[..], at, if n == 0 then [] else Encoding(c))
  {
    n := BytesToWrite(c);
    if maxByteLen < n {
      return 0;
    }
    WriteFalling(c, n, bytes, at);
  }

  method WriteFalling(c: nat, n: nat, bytes: array<Byte>, at: nat)
    requires c <= 0x7FFF_FFFF && n == |Encoding(c)| && at + n <= bytes.Length
    modifies bytes
    ensures Wrote(old(bytes[..]), bytes[..], at, Encoding(c))
  {
    ghost var e := Encoding(c);
    var ch, i := c, n - 1;
    while 0 < i
      invariant 0 <= i < n && ch == Shift(c, n - 1 - i)
      invariant forall j :: at + i < j < at + n ==> bytes[j] == e[j - at]
      invariant forall j :: 0 <= j < bytes.Length && !(at <= j < at + n) ==> bytes[j] == old(bytes[j])
    {
      EncodingAt(c, i);
      bytes[at + i] := 0x80 + ch % 0x40;
      ch, i := ch / 0x40, i - 1;
    }
    EncodingAt(c, 0);
    bytes[at] := FirstByteMark(n) + ch;
  }

  /** The room is passed on as a 32-bit number unless the character is ASCII. */
  const WIDE: nat := 0x1_0000_0000

  predicate Fits(c: Scalar, room: Room) {
    match room
    case Counting => true
    case Left(n) => if c < 0x80 then 0 < n else |Encoding(c)| <= n % WIDE
  }

  function EncodeRule(c: Scalar, room: Room): Verdict {
    if Fits(c, room) then Write else Leave
  }

  /** The converter from UTF-16 to UTF-8. */
  function Encoder(): Coder<Unit, Scalar, Byte> {
    Coder(NextUnit, EncodeScalar, EncodeRule)
  }

  lemma EncoderLaws()
    ensures CountsAll(Encoder()) && WritesSomething(Encoder()) && NeedsRoom(Encoder())
  {
  }

  /** The character at an index, from one unit or from a pair; no character at an unpaired surrogate. */
  method ReadScalar(chars: seq<Unit>, i: nat) returns (ok: bool, ch: Scalar, next: nat)
    requires i < |chars|
    ensures ok <==> NextUnit(chars[i..]).Take?
    ensures ok ==> i < next <= |chars| && NextUnit(chars[i..]) == Take(ch, next - i)
  {
    var u := chars[i];
    next := i + 1;
    if u < 0x80 {
      return true, u, next;
    }
    if 0xD800 <= u {
      if u <= 0xDBFF {
        if next < |chars| && 0xDC00 <= chars[next] <= 0xDFFF {
          return true, FromPair(u, chars[next]), next + 1;
        }
        return false, 0, i;
      } else if u <= 0xDFFF {
        return false, 0, i;
      }
    }
    return true, u, next;
  }

  /** Writes a character, or only counts its bytes; 0 means that it did not fit. */
  method WriteScalar(ch: Scalar, bytes: array<Byte>, used: nat, maxByteLen: nat) returns (n: nat)
    requires maxByteLen <= bytes.Length && (maxByteLen != 0 ==> used < maxByteLen)
    modifies bytes
    ensures n == if Fits(ch, RoomLeft(maxByteLen, used)) then |Encoding(ch)| else 0
    ensures Output(old(bytes[..]), bytes[..], maxByteLen, used, if n == 0 then [] else Encoding(ch))
  {
    if maxByteLen == 0 {
      n := BytesToWrite(ch);
    } else if ch < 0x80 {
      bytes[used] := ch;
      n := 1;
    } else {
      n := ToUTF8Core(ch, bytes, used, (maxByteLen - used) % WIDE);
    }
  }

  // ---------- the loop ----------

  function Run(s: seq<Unit>, room: Room): Outcome<Byte> {
    Utf8Buffer.Run(Encoder(), s, room)
  }

  /** One turn of the loop: a character is taken and written, or nothing more can be. */
  method EncodeNext(chars: seq<Unit>, consumed: nat, bytes: array<Byte>, used: nat, max: nat,
                    ghost was: seq<Byte>, ghost all: Outcome<Byte>) returns (more: bool, next: nat, n: nat)
    requires consumed < |chars| && max <= bytes.Length && (max != 0 ==> used < max)
    requires Midway(all, was, bytes[..], max, consumed, used, Run(chars[consumed..], RoomLeft(max, used)))
    modifies bytes
    ensures more ==> consumed < next <= |chars|
    ensures more ==> Midway(all, was, bytes[..], max, next, used + n, Run(chars[next..], RoomLeft(max, used + n)))
    ensures !more ==> Midway(all, was, bytes[..], max, consumed, used, Outcome(0, []))
  {
    ghost var now := bytes[..];
    n := 0;
    var ch;
    more, ch, next := ReadScalar(chars, consumed);
    if !more {
      TurnStops(Encoder(), chars, consumed, max, used, all, was, now);
    } else {
      n := WriteScalar(ch, bytes, used, max);
      more := n != 0;
      if more {
        TurnTaken(Encoder(), chars, consumed, next, ch, max, used, n, all, was, now, bytes[..]);
      } else {
        assert bytes[..] == now;
        TurnEnds(Encoder(), chars, consumed, next, ch, max, used, all, was, now);
      }
    }
  }

  /**
    Encodes the characters of the longest well-formed prefix as long as they
    fit. The output holds their encodings and is otherwise untouched.
  */
  method ToUTF8(chars: seq<Unit>, bytes: array<Byte>, maxByteLen: nat) returns (consumed: nat, used: nat)
    requires maxByteLen <= bytes.Length
    modifies bytes
    ensures var r := Run(chars, RoomLeft(maxByteLen, 0));
      consumed == r.taken && used == |r.out| && Finished(old(bytes[..]), bytes[..], maxByteLen, r.out)
  {
    consumed, used := 0, 0;
    ghost var all := Run(chars, RoomLeft(maxByteLen, 0));
    ghost var was := bytes[..];
    assert chars[0..] == chars;
    while consumed < |chars| && (maxByteLen == 0 || used < maxByteLen)
      invariant consumed <= |chars|
      invariant Midway(all, was, bytes[..], maxByteLen, consumed, used,
                       Run(chars[consumed..], RoomLeft(maxByteLen, used)))
      decreases |chars| - consumed
    {
      var more, next, n := EncodeNext(chars, consumed, bytes, used, maxByteLen, was, all);
      if !more {
        MidwayDone(all, was, bytes[..], maxByteLen, consumed, used);
        return;
      }
      consumed, used := next, used + n;
    }
    RunEnds(chars[consumed..], RoomLeft(maxByteLen, used));
    MidwayDone(all, was, bytes[..], maxByteLen, consumed, used);
  }

  /** Nothing more is written at the end of the input or of the room. */
  lemma RunEnds(s: seq<Unit>, room: Room)
    requires s == [] || room == Left(0)
    ensures Run(s, room) == Outcome(0, [])
  {
  }

  // ---------- how much is encoded ----------

  /** A run encodes the longest well-formed prefix as far as it fits. */
  lemma RunIsFitting(s: seq<Unit>, room: Room)
    ensures var w := Written(Encoder(), Tokens(NextUnit, s), room);
      w <= Tokens(NextUnit, s) && Run(s, room) == Outcome(Widths(w), EncodeAll(Scalars(w)))
  {
    var ts := Tokens(NextUnit, s);
    DriveIs(Encoder(), ts, room);
    var w := Written(Encoder(), ts, room);
    assert ts[..|w|] == w;
  }

  /** When counting, all of the longest well-formed prefix is encoded. */
  lemma CountsEncoding(s: seq<Unit>)
    ensures Run(s, Counting) == Outcome(Widths(Tokens(NextUnit, s)), EncodeAll(ScalarsOf(s)))
  {
    EncoderLaws();
    CountingWritesAll(Encoder(), Tokens(NextUnit, s));
  }

  /** The longest prefix the buffer can hold is encoded exactly when the room never looks too small. */
  lemma EncodesLongestIff(s: seq<Unit>, n: nat)
    ensures var ts := Tokens(NextUnit, s);
      Longest(EncodeScalar, ts, Written(Encoder(), ts, Left(n)), n) <==> !Stumbles(Encoder(), Scalars(ts), n)
  {
    EncoderLaws();
    LongestIff(Encoder(), Tokens(NextUnit, s), n);
  }

  /** Character i has room behind those before it, but what is left, passed on in 32 bits, looks too small for it. */
  predicate LooksTooSmall(cs: seq<Scalar>, n: nat, i: nat)
    requires i < |cs|
  {
    var left := n - |EncodeAll(cs[..i])|;
    0x80 <= cs[i] && left % WIDE < |Encoding(cs[i])| <= left
  }

  /** The encoder stumbles if and only if the room looks too small for some character that fits. */
  lemma {:induction false} StumblesIff(cs: seq<Scalar>, n: nat)
    ensures Stumbles(Encoder(), cs, n) <==> exists i :: 0 <= i < |cs| && LooksTooSmall(cs, n, i)
  {
    if cs != [] {
      LooksTooSmallFirst(cs, n);
      if i :| 0 < i < |cs| && LooksTooSmall(cs, n, i) {
        LooksTooSmallNext(cs, n, i);
      }
      if |Encoding(cs[0])| <= n {
        var m := n - |Encoding(cs[0])|;
        StumblesIff(cs[1..], m);
        if i :| 0 <= i < |cs[1..]| && LooksTooSmall(cs[1..], m, i) {
          LooksTooSmallNext(cs, n, i + 1);
        }
      }
    }
  }

  lemma LooksTooSmallFirst(cs: seq<Scalar>, n: nat)
    requires cs != []
    ensures LooksTooSmall(cs, n, 0) <==> |Encoding(cs[0])| <= n && !Fits(cs[0], Left(n))
  {
  }

  lemma LooksTooSmallNext(cs: seq<Scalar>, n: nat, i: nat)
    requires 0 < i < |cs|
    ensures LooksTooSmall(cs, n, i) <==>
            |Encoding(cs[0])| <= n && LooksTooSmall(cs[1..], n - |Encoding(cs[0])|, i - 1)
  {
    assert cs[..i][1..] == cs[1..][..i - 1];
  }

  lemma {:induction false} NarrowNeverStumbles(cs: seq<Scalar>, n: nat)
    requires n < WIDE
    ensures !Stumbles(Encoder(), cs, n)
  {
    if cs != [] && |Encoding(cs[0])| <= n {
      NarrowNeverStumbles(cs[1..], n - |Encoding(cs[0])|);
    }
  }

  /** A buffer of exactly four gigabytes takes nothing of a text that starts outside ASCII. */
  lemma WideBufferStumbles(s: seq<Unit>)
    requires ScalarsOf(s) != [] && 0x80 <= ScalarsOf(s)[0]
    ensures Stumbles(Encoder(), ScalarsOf(s), WIDE) && Run(s, Left(WIDE)) == Outcome(0, [])
  {
  }

  /** With room enough, encoding stops at the end of the text or at its first unpaired surrogate. */
  lemma StopsAtUnpaired(s: seq<Unit>, room: Room)
    requires room.Left? ==> |EncodeAll(ScalarsOf(s))| <= room.n && !Stumbles(Encoder(), ScalarsOf(s), room.n)
    ensures var r := Run(s, room);
      && r.out == EncodeAll(ScalarsOf(s))
      && r.taken <= |s| && s[..r.taken] == UnitsAll(ScalarsOf(s)) && Paired(s[..r.taken])
      && (r.taken < |s| ==> Unpaired(s, r.taken))
  {
    var ts := Tokens(NextUnit, s);
    if room.Left? {
      RoomForAll(Encoder(), ts, room.n);
      RunIsFitting(s, room);
    } else {
      CountsEncoding(s);
    }
    ScalarsCover(s);
  }

  /** Text may be encoded piece by piece: going on after what was taken gives the rest. */
  lemma ResumeEncoding(s: seq<Unit>, room: Room)
    ensures Run(s, room).taken <= |s|
    ensures Resumes(Run(s, Counting), Run(s, room), Run(s[Run(s, room).taken..], Counting))
  {
    EncoderLaws();
    ResumeIff(Encoder(), s, room);
    NeverLoses(Tokens(NextUnit, s), room);
  }

  lemma NeverLoses(ts: seq<Token<Scalar>>, room: Room)
    ensures !Loses(Encoder(), ts, room)
  {
  }

  // ---------- the length pass ----------

  /** The bytes of every character, an unpaired surrogate counting as one. */
  function EncodedLength(s: seq<Unit>): nat
    decreases |s|
  {
    if s == [] then 0
    else if IsHigh(s[0]) && 1 < |s| && IsLow(s[1]) then 4 + EncodedLength(s[2..])
    else BytesToWrite(s[0]) + EncodedLength(s[1..])
  }

  /**
    The count is kept in 32 bits, so it is the encoded length if and only if that
    is below 2^32. It then bounds what is encoded, and equals it just for
    well-formed text; for well-formed text it bounds it only then.
  */
  method ToUTF8Len(chars: seq<Unit>) returns (n: nat)
    ensures n == EncodedLength(chars) % WIDE
    ensures n == EncodedLength(chars) <==> EncodedLength(chars) < WIDE
    ensures EncodedLength(chars) < WIDE ==>
      var size := |EncodeAll(ScalarsOf(chars))|; size <= n && (size == n <==> Paired(chars))
    ensures Paired(chars) ==> (|EncodeAll(ScalarsOf(chars))| <= n <==> EncodedLength(chars) < WIDE)
  {
    n := SumLengths(chars);
    LengthBounds(chars);
    WrappedIff(EncodedLength(chars));
  }

  lemma WrappedIff(n: nat)
    ensures (n % WIDE == n <==> n < WIDE) && (n <= n % WIDE <==> n < WIDE)
  {
  }

  method SumLengths(chars: seq<Unit>) returns (n: nat)
    ensures n == EncodedLength(chars) % WIDE
  {
    n := 0;
    var i := 0;
    assert chars[0..] == chars;
    while i < |chars|
      invariant i <= |chars| && n < WIDE
      invariant (n + EncodedLength(chars[i..])) % WIDE == EncodedLength(chars) % WIDE
      decreases |chars| - i
    {
      ghost var rest := chars[i..];
      var ch: int := chars[i];
      i := i + 1;
      if 0xD800 <= ch <= 0xDBFF && i < |chars| && 0xDC00 <= chars[i] <= 0xDFFF {
        ch := FromPair(ch, chars[i]);
        i := i + 1;
        assert rest[2..] == chars[i..];
      } else {
        assert rest[1..] == chars[i..];
      }
      Wrapped(n + BytesToWrite(ch), EncodedLength(chars[i..]));
      n := (n + BytesToWrite(ch)) % WIDE;
    }
  }

  /** A text of 2^32 ASCII characters is counted as empty. */
  lemma WideTextCountsZero(s: seq<Unit>)
    requires |s| == WIDE && forall i :: 0 <= i < |s| ==> s[i] < 0x80
    ensures EncodedLength(s) % WIDE == 0 && Paired(s) && |EncodeAll(ScalarsOf(s))| == WIDE
  {
    AsciiLength(s);
    assert forall i :: 0 <= i < |s| ==> PairedAt(s, i);
    LengthBounds(s);
  }

  lemma {:induction false} AsciiLength(s: seq<Unit>)
    requires forall i :: 0 <= i < |s| ==> s[i] < 0x80
    ensures EncodedLength(s) == |s|
  {
    if s != [] {
      AsciiLength(s[1..]);
    }
  }

  lemma Wrapped(a: nat, b: nat)
    ensures (a % WIDE + b) % WIDE == (a + b) % WIDE
  {
    var q := a / WIDE;
    assert a + b == a % WIDE + b + q * WIDE;
  }

  /** The length pass bounds what is encoded, and agrees with it exactly on well-formed text. */
  lemma LengthBounds(s: seq<Unit>)
    ensures |EncodeAll(ScalarsOf(s))| <= EncodedLength(s)
    ensures |EncodeAll(ScalarsOf(s))| == EncodedLength(s) <==> Paired(s)
  {
    LengthOfCovered(s);
    PairedIff(s);
    ScalarsCover(s);
  }

  lemma {:induction false} LengthOfCovered(s: seq<Unit>)
    ensures |EncodeAll(ScalarsOf(s))| <= EncodedLength(s)
    ensures |EncodeAll(ScalarsOf(s))| == EncodedLength(s) <==> Widths(Tokens(NextUnit, s)) == |s|
    decreases |s|
  {
    var t := NextUnit(s);
    if t.Take? {
      var rest := s[t.width..];
      LengthOfCovered(rest);
      LengthNext(s, t.scalar, t.width);
      TokensStep(NextUnit, s, t.scalar, t.width);
      SizesNext(EncodeScalar, Token(t.scalar, t.width), Tokens(NextUnit, rest));
    }
  }

  lemma SizesNext(out: Scalar -> seq<Byte>, t: Token<Scalar>, ts: seq<Token<Scalar>>)
    ensures |FlatMap(out, Scalars([t] + ts))| == |out(t.scalar)| + |FlatMap(out, Scalars(ts))|
    ensures Widths([t] + ts) == t.width + Widths(ts)
  {
    assert ([t] + ts)[1..] == ts;
    assert Scalars([t] + ts)[1..] == Scalars(ts);
  }

  lemma LengthNext(s: seq<Unit>, c: Scalar, width: nat)
    requires NextUnit(s) == Take(c, width)
    ensures EncodedLength(s) == |Encoding(c)| + EncodedLength(s[width..])
  {
  }
}
