/**
  Decoding UTF-8 as UTF-16 in CFBuiltinConverters.c, with default flags:
  strict, and without decomposition.
*/
module Utf8Decode {
  import opened Utf8Steps
  import opened Utf8Format
  import opened Utf8Buffer

  // ---------- one character ----------

  /** Whether a sequence, of the length its first byte gives, is legal. */
  method IsLegalUTF8(bytes: seq<Byte>, at: nat, length: nat) returns (legal: bool)
    requires at + length <= |bytes| && 0 < length == 1 + TrailingBytes(bytes[at])
    ensures legal <==> LegalChar(bytes[at..at + length])
  {
    if 4 < length {
      return false;
    }
    ghost var bs := bytes[at..at + length];
    var head, i := bytes[at], length - 1;
    while 0 < i
      invariant 0 <= i < length && forall j :: i < j < length ==> IsTail(bs[j])
    {
      assert bs[i] == bytes[at + i];
      if !(0x80 <= bytes[at + i] <= 0xBF) {
        return false;
      }
      i := i - 1;
    }
    if (0x80 <= head && head < 0xC2) || 0xF4 < head {
      return false;
    }
    if (head == 0xE0 && bytes[at + 1] < 0xA0) || (head == 0xED && 0x9F < bytes[at + 1])
       || (head == 0xF0 && bytes[at + 1] < 0x90) || (head == 0xF4 && 0x8F < bytes[at + 1]) {
      return false;
    }
    return true;
  }

  /** What is subtracted for the marks in the bytes of a character. */
  function OffsetFromUTF8(extra: nat): nat
    requires extra <= 3
  {
    if extra == 0 then 0 else if extra == 1 then 0x3080 else if extra == 2 then 0xE_2080 else 0x3C8_2080
  }

  /** Adds up the bytes, shifting in between, and subtracts their marks at the end. */
  method Combine(bytes: seq<Byte>, at: nat, extra: nat) returns (ch: int)
    requires extra <= 3 && at + extra < |bytes| && LegalChar(bytes[at..at + extra + 1])
    ensures ch == Value(bytes[at..at + extra + 1])
  {
    ch := 0;
    var i := at;
    if extra == 3 {
      ch, i := (ch + bytes[i]) * 0x40, i + 1;
    }
    if 2 <= extra {
      ch, i := (ch + bytes[i]) * 0x40, i + 1;
    }
    if 1 <= extra {
      ch, i := (ch + bytes[i]) * 0x40, i + 1;
    }
    ch := ch + bytes[i] - OffsetFromUTF8(extra);
  }

  /**
    The character at an index. Legal bytes never stand for a surrogate or for
    more than 0x10FFFF, so the checks the source makes for those do not show.
  */
  method ReadChar(bytes: seq<Byte>, i: nat) returns (ok: bool, ch: Scalar, next: nat)
    requires i < |bytes|
    ensures ok <==> NextChar(bytes[i..]).Take?
    ensures ok ==> i < next <= |bytes| && NextChar(bytes[i..]) == Take(ch, next - i)
  {
    ok, ch, next := false, 0, i;
    var extra := TrailingBytes(bytes[i]);
    if extra <= |bytes| - i - 1 {
      assert bytes[i..][..1 + extra] == bytes[i..i + 1 + extra];
      var legal := IsLegalUTF8(bytes, i, extra + 1);
      if legal {
        ch := Combine(bytes, i, extra);
        ok, next := true, i + extra + 1;
      } else if bytes[i] == 0xA9 {
        ok, ch, next := true, 0xFFFD, i + 1;
      }
    }
  }

  /** Writes a character's units, or only counts them; 0 means that they did not fit. */
  method WriteUnits(ch: Scalar, chars: array<Unit>, used: nat, max: nat) returns (n: nat)
    requires max <= chars.Length && (max != 0 ==> used < max)
    modifies chars
    ensures n == if RoomLeft(max, used) == Left(1) && 0x1_0000 <= ch then 0 else |UnitsOf(ch)|
    ensures Output(old(chars[..]), chars[..], max, used, if n == 0 then [] else UnitsOf(ch))
  {
    if ch <= 0xFFFF {
      if max != 0 {
        chars[used] := ch;
      }
      n := 1;
    } else {
      if max != 0 {
        if max < used + 2 {
          return 0;
        }
        var c := ch - 0x1_0000;
        chars[used] := c / 0x400 + 0xD800;
        chars[used + 1] := c % 0x400 + 0xDC00;
      }
      n := 2;
    }
  }

  // ---------- the loop ----------

  /** A pair that finds room for one unit only is lost: the input has moved on before the room is looked at. */
  function DecodeRule(c: Scalar, room: Room): Verdict {
    if room.Counting? || |UnitsOf(c)| <= room.n then Write else if room.n == 0 then Leave else Lose
  }

  /** The converter from UTF-8 to UTF-16. */
  function Decoder(): Coder<Byte, Scalar, Unit> {
    Coder(NextChar, UnitsOf, DecodeRule)
  }

  lemma DecoderLaws()
    ensures CountsAll(Decoder()) && WritesSomething(Decoder()) && NeedsRoom(Decoder())
  {
  }

  function Run(b: seq<Byte>, room: Room): Outcome<Unit> {
    Utf8Buffer.Run(Decoder(), b, room)
  }

  /** One turn of the loop: a character is taken and written, or nothing more can be. */
  method DecodeNext(bytes: seq<Byte>, consumed: nat, chars: array<Unit>, used: nat, max: nat,
                    ghost was: seq<Unit>, ghost all: Outcome<Unit>) returns (more: bool, next: nat, n: nat)
    requires consumed < |bytes| && max <= chars.Length && (max != 0 ==> used < max)
    requires Midway(all, was, chars[..], max, consumed, used, Run(bytes[consumed..], RoomLeft(max, used)))
    modifies chars
    ensures more ==> consumed < next <= |bytes|
    ensures more ==> Midway(all, was, chars[..], max, next, used + n, Run(bytes[next..], RoomLeft(max, used + n)))
    ensures !more ==> n == 0 && Midway(all, was, chars[..], max, next, used, Outcome(0, []))
  {
    ghost var now := chars[..];
    n := 0;
    var ch;
    more, ch, next := ReadChar(bytes, consumed);
    if !more {
      next := consumed;
      TurnStops(Decoder(), bytes, consumed, max, used, all, was, now);
    } else {
      n := WriteUnits(ch, chars, used, max);
      more := n != 0;
      if more {
        TurnTaken(Decoder(), bytes, consumed, next, ch, max, used, n, all, was, now, chars[..]);
      } else {
        assert chars[..] == now;
        TurnEnds(Decoder(), bytes, consumed, next, ch, max, used, all, was, now);
      }
    }
  }

  /** Decodes as many characters as fit. The output holds their units and is otherwise untouched. */
  method FromUTF8(bytes: seq<Byte>, chars: array<Unit>, maxCharLen: nat) returns (consumed: nat, used: nat)
    requires maxCharLen <= chars.Length
    modifies chars
    ensures var r := Run(bytes, RoomLeft(maxCharLen, 0));
      consumed == r.taken && used == |r.out| && Finished(old(chars[..]), chars[..], maxCharLen, r.out)
  {
    consumed, used := 0, 0;
    ghost var all := Run(bytes, RoomLeft(maxCharLen, 0));
    ghost var was := chars[..];
    assert bytes[0..] == bytes;
    while consumed < |bytes| && (maxCharLen == 0 || used < maxCharLen)
      invariant consumed <= |bytes|
      invariant Midway(all, was, chars[..], maxCharLen, consumed, used,
                       Run(bytes[consumed..], RoomLeft(maxCharLen, used)))
      decreases |bytes| - consumed
    {
      var more, next, n := DecodeNext(bytes, consumed, chars, used, maxCharLen, was, all);
      consumed, used := next, used + n;
      if !more {
        MidwayDone(all, was, chars[..], maxCharLen, consumed, used);
        return;
      }
    }
    RunEnds(bytes[consumed..], RoomLeft(maxCharLen, used));
    MidwayDone(all, was, chars[..], maxCharLen, consumed, used);
  }

  /** Nothing more is written at the end of the input or of the room. */
  lemma RunEnds(b: seq<Byte>, room: Room)
    requires b == [] || room == Left(0)
    ensures Run(b, room) == Outcome(0, [])
  {
  }

  /** The length pass: the same characters, their units only counted. */
  method FromUTF8Len(bytes: seq<Byte>) returns (n: nat)
    ensures n == |Run(bytes, Counting).out|
  {
    n := 0;
    var i := 0;
    assert bytes[0..] == bytes;
    while i < |bytes|
      invariant i <= |bytes| && n + |Run(bytes[i..], Counting).out| == |Run(bytes, Counting).out|
      decreases |bytes| - i
    {
      var ok, ch, next := ReadChar(bytes, i);
      if !ok {
        break;
      }
      RunNext(Decoder(), bytes, i, next, ch, Counting);
      n := n + if ch <= 0xFFFF then 1 else 2;
      i := next;
    }
  }

  // ---------- how much is decoded ----------

  /** When counting, every character found is decoded. */
  lemma CountsDecoding(b: seq<Byte>)
    ensures Run(b, Counting) == Outcome(Widths(CharsOf(b)), UnitsAll(Scalars(CharsOf(b))))
  {
    DecoderLaws();
    CountingWritesAll(Decoder(), CharsOf(b));
  }

  /** One unit of room is left when a pair comes. */
  predicate Overruns(b: seq<Byte>, room: Room) {
    var n := |Written(Decoder(), CharsOf(b), room)|;
    n < |CharsOf(b)| && RoomAtEnd(Decoder(), CharsOf(b), room) == Left(1)
  }

  /** That is when a character is lost. */
  lemma OverrunsIff(b: seq<Byte>, room: Room)
    ensures Overruns(b, room) <==> Loses(Decoder(), CharsOf(b), room)
  {
    NotWrittenAtEnd(CharsOf(b), room);
  }

  lemma {:induction false} NotWrittenAtEnd(ts: seq<Token<Scalar>>, room: Room)
    ensures var n := |Written(Decoder(), ts, room)|;
      n < |ts| ==> !DecodeRule(ts[n].scalar, RoomAtEnd(Decoder(), ts, room)).Write?
  {
    if ts != [] && DecodeRule(ts[0].scalar, room).Write? {
      NotWrittenAtEnd(ts[1..], After(room, |UnitsOf(ts[0].scalar)|));
    }
  }

  /** A run writes the longest prefix of characters for which there is room. */
  lemma DecodesLongest(b: seq<Byte>, n: nat)
    ensures Longest(UnitsOf, CharsOf(b), Written(Decoder(), CharsOf(b), Left(n)), n)
    ensures Run(b, Left(n)).out == UnitsAll(Scalars(Written(Decoder(), CharsOf(b), Left(n))))
  {
    DecoderLaws();
    LongestIff(Decoder(), CharsOf(b), n);
    NeverStumbles(Scalars(CharsOf(b)), n);
    DriveIs(Decoder(), CharsOf(b), Left(n));
  }

  lemma {:induction false} NeverStumbles(cs: seq<Scalar>, n: nat)
    ensures !Stumbles(Decoder(), cs, n)
  {
    if cs != [] && |UnitsOf(cs[0])| <= n {
      NeverStumbles(cs[1..], n - |UnitsOf(cs[0])|);
    }
  }

  /**
    The bytes taken stand for exactly what was written, so that a caller can go
    on after them, if and only if the run did not overrun.
  */
  lemma DecodesWhatItTakesIff(b: seq<Byte>, room: Room)
    ensures var r := Run(b, room);
      r.taken <= |b| && (Run(b[..r.taken], Counting).out == r.out <==> !Overruns(b, room))
  {
    DecoderLaws();
    NextCharIsLocal();
    LosesNothingIff(Decoder(), b, room);
    OverrunsIff(b, room);
  }

  /** Bytes may be decoded piece by piece, going on after those taken, if and only if the first run did not overrun. */
  lemma ResumeDecodingIff(b: seq<Byte>, room: Room)
    ensures Run(b, room).taken <= |b|
    ensures var all, r := Run(b, Counting), Run(b, room); var rest := Run(b[r.taken..], Counting);
      all.taken == r.taken + rest.taken && (Resumes(all, r, rest) <==> !Overruns(b, room))
  {
    DecoderLaws();
    ResumeIff(Decoder(), b, room);
    OverrunsIff(b, room);
  }

  /** A character outside the basic plane is taken and lost when there is room for one unit. */
  lemma LosesLastPair(c: Scalar)
    requires 0x1_0000 <= c
    ensures Run(Encoding(c), Left(1)) == Outcome(4, [])
  {
    NextCharOfEncoding(c, []);
    assert Encoding(c) + [] == Encoding(c);
    TokensStep(NextChar, Encoding(c), c, 4);
  }
}
