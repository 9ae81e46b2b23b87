/** The two UTF-8 converters undo each other. */
module Utf8RoundTrip {
  import opened Utf8Steps
  import opened Utf8Format
  import opened Utf8Buffer
  import Utf8Encode
  import Utf8Decode

  // ---------- what the converters make of each other's output ----------

  lemma DecodesEncoded(cs: seq<Scalar>)
    ensures Utf8Decode.Run(EncodeAll(cs), Counting) == Outcome(|EncodeAll(cs)|, UnitsAll(cs))
  {
    DecodeEncode(cs);
    Utf8Decode.CountsDecoding(EncodeAll(cs));
  }

  /** Whatever the room, what a run encodes decodes to the units it took. */
  lemma DecodesWhatWasEncoded(s: seq<Unit>, room: Room)
    ensures var e := Utf8Encode.Run(s, room);
      e.taken <= |s| && Utf8Decode.Run(e.out, Counting) == Outcome(|e.out|, s[..e.taken])
  {
    var ts := Tokens(NextUnit, s);
    var w := Written(Utf8Encode.Encoder(), ts, room);
    Utf8Encode.RunIsFitting(s, room);
    DecodesEncoded(Scalars(w));
    UnitsOfPrefix(s, |w|);
    assert ts[..|w|] == w;
  }

  /** The units of the first characters are the text they were taken from. */
  lemma UnitsOfPrefix(s: seq<Unit>, n: nat)
    requires n <= |Tokens(NextUnit, s)|
    ensures var w := Tokens(NextUnit, s)[..n]; Widths(w) <= |s| && UnitsAll(Scalars(w)) == s[..Widths(w)]
  {
    UnitsWriteBack();
    WriteBackPrefix(NextUnit, UnitsOf, s, n);
  }

  /** Decoding the encoding of a text gives it back, up to its first unpaired surrogate. */
  lemma UnitsRoundTrip(s: seq<Unit>)
    ensures var e := Utf8Encode.Run(s, Counting); var d := Utf8Decode.Run(e.out, Counting);
      && d.taken == |e.out| && e.taken <= |s| && d.out == s[..e.taken]
      && (e.taken == |s| <==> Paired(s)) && (e.taken < |s| ==> Unpaired(s, e.taken))
  {
    DecodesWhatWasEncoded(s, Counting);
    Utf8Encode.StopsAtUnpaired(s, Counting);
    PairedIff(s);
  }

  /** Encoding the decoding of legal UTF-8 gives it back. */
  lemma BytesRoundTrip(b: seq<Byte>)
    requires Legal(b)
    ensures var d := Utf8Decode.Run(b, Counting);
      d.taken == |b| && Utf8Encode.Run(d.out, Counting) == Outcome(|d.out|, b)
  {
    EncodeDecode(b);
    Utf8Decode.CountsDecoding(b);
    UnitsReadBack(Scalars(CharsOf(b)));
    Utf8Encode.CountsEncoding(UnitsAll(Scalars(CharsOf(b))));
  }

  lemma DecodedScalars(b: seq<Byte>)
    ensures ScalarsOf(Utf8Decode.Run(b, Counting).out) == Scalars(CharsOf(b))
  {
    Utf8Decode.CountsDecoding(b);
    UnitsReadBack(Scalars(CharsOf(b)));
  }

  // ---------- with buffers of the sizes counted ----------

  /** How many bytes a text needs. */
  function Needed(s: seq<Unit>): nat {
    |Utf8Encode.Run(s, Counting).out|
  }

  /** A buffer of the size needed takes everything if and only if the room never looks too small. */
  lemma ExactRoomIff(s: seq<Unit>)
    ensures var all, r := Utf8Encode.Run(s, Counting), Utf8Encode.Run(s, RoomLeft(Needed(s), 0));
      && (r == all <==> !Stumbles(Utf8Encode.Encoder(), ScalarsOf(s), Needed(s)))
      && (r == all <==> r.out == all.out) && (r == all <==> r.taken == all.taken) && r.taken <= all.taken
  {
    var ts := Tokens(NextUnit, s);
    Utf8Encode.CountsEncoding(s);
    Utf8Encode.EncoderLaws();
    AllWrittenIff(Utf8Encode.Encoder(), ts);
    if Needed(s) == 0 {
      NoTokens(ts);
    } else {
      var w := Written(Utf8Encode.Encoder(), ts, Left(Needed(s)));
      Utf8Encode.RunIsFitting(s, Left(Needed(s)));
      ShorterIfFewer(s, |w|);
      assert ts[..|w|] == w;
    }
  }

  lemma NoTokens(ts: seq<Token<Scalar>>)
    ensures EncodeAll(Scalars(ts)) == [] <==> ts == []
  {
  }

  lemma ShorterIfFewer(s: seq<Unit>, n: nat)
    requires n <= |Tokens(NextUnit, s)|
    ensures Widths(Tokens(NextUnit, s)[..n]) == Widths(Tokens(NextUnit, s)) <==> n == |Tokens(NextUnit, s)|
  {
    var ts := Tokens(NextUnit, s);
    SplitAt(UnitsOf, ts, n);
    WidthsPositive(NextUnit, s, n);
    assert ts[..|ts|] == ts;
  }

  /** Encodes into a buffer of the size counted: all is written if and only if the room never looks too small. */
  method Encode(s: seq<Unit>) returns (b: seq<Byte>, consumed: nat)
    ensures Outcome(consumed, b) == Utf8Encode.Run(s, RoomLeft(Needed(s), 0))
    ensures Outcome(consumed, b) == Utf8Encode.Run(s, Counting) <==>
            !Stumbles(Utf8Encode.Encoder(), ScalarsOf(s), Needed(s))
  {
    var none := new Byte[0];
    var _, n := Utf8Encode.ToUTF8(s, none, 0);
    var buffer := new Byte[n];
    var used;
    consumed, used := Utf8Encode.ToUTF8(s, buffer, n);
    b := buffer[..used];
    ExactRoomIff(s);
  }

  /**
    A buffer of the size that the length pass gives takes the whole encoding if
    the text's size is below 2^32, and for well-formed text only then.
  */
  method EncodeSized(s: seq<Unit>) returns (b: seq<Byte>, consumed: nat)
    ensures Utf8Encode.EncodedLength(s) < Utf8Encode.WIDE ==> Outcome(consumed, b) == Utf8Encode.Run(s, Counting)
    ensures Paired(s) ==> (b == Utf8Encode.Run(s, Counting).out <==> Utf8Encode.EncodedLength(s) < Utf8Encode.WIDE)
  {
    var n := Utf8Encode.ToUTF8Len(s);
    var buffer := new Byte[n];
    var used;
    consumed, used := Utf8Encode.ToUTF8(s, buffer, n);
    b := if n == 0 then [] else buffer[..used];
    Utf8Encode.CountsEncoding(s);
    if Utf8Encode.EncodedLength(s) < Utf8Encode.WIDE {
      SizedIsEnough(s, n);
    }
  }

  lemma SizedIsEnough(s: seq<Unit>, n: nat)
    requires n == Utf8Encode.EncodedLength(s) < Utf8Encode.WIDE
    ensures Utf8Encode.Run(s, RoomLeft(n, 0)) == Utf8Encode.Run(s, Counting)
    ensures n == 0 ==> Utf8Encode.Run(s, Counting).out == []
  {
    var ts := Tokens(NextUnit, s);
    Utf8Encode.LengthBounds(s);
    Utf8Encode.CountsEncoding(s);
    if n != 0 {
      Utf8Encode.NarrowNeverStumbles(ScalarsOf(s), n);
      RoomForAll(Utf8Encode.Encoder(), ts, n);
      Utf8Encode.RunIsFitting(s, Left(n));
    }
  }

  /** Decodes into a buffer of the size that the length pass gives. */
  method Decode(b: seq<Byte>) returns (s: seq<Unit>, consumed: nat)
    ensures Outcome(consumed, s) == Utf8Decode.Run(b, Counting)
  {
    var n := Utf8Decode.FromUTF8Len(b);
    var buffer := new Unit[n];
    var used;
    consumed, used := Utf8Decode.FromUTF8(b, buffer, n);
    s := buffer[..used];
    DecodeEnough(b);
  }

  /** Room for all the units is room enough, and is never overrun. */
  lemma DecodeEnough(b: seq<Byte>)
    ensures Utf8Decode.Run(b, RoomLeft(|Utf8Decode.Run(b, Counting).out|, 0)) == Utf8Decode.Run(b, Counting)
  {
    var ts := CharsOf(b);
    var n := |Utf8Decode.Run(b, Counting).out|;
    Utf8Decode.CountsDecoding(b);
    if n != 0 {
      Utf8Decode.NeverStumbles(Scalars(ts), n);
      RoomForAll(Utf8Decode.Decoder(), ts, n);
      DriveIs(Utf8Decode.Decoder(), ts, Left(n));
      assert ts[..|ts|] == ts;
    }
  }

  /** Text survives being encoded and decoded if and only if it is well formed and the room never looks too small. */
  method EncodeThenDecode(s: seq<Unit>) returns (t: seq<Unit>)
    ensures t <= s
    ensures t == s <==> Paired(s) && !Stumbles(Utf8Encode.Encoder(), ScalarsOf(s), Needed(s))
    ensures !Stumbles(Utf8Encode.Encoder(), ScalarsOf(s), Needed(s)) && |t| < |s| ==> Unpaired(s, |t|)
  {
    var b, consumed := Encode(s);
    var n;
    t, n := Decode(b);
    DecodesWhatWasEncoded(s, RoomLeft(Needed(s), 0));
    ExactRoomIff(s);
    UnitsRoundTrip(s);
  }

  /** Bytes survive being decoded and encoded if and only if they are legal and the room never looks too small. */
  method DecodeThenEncode(b: seq<Byte>) returns (c: seq<Byte>)
    ensures c == b <==> Legal(b) && !Stumbles(Utf8Encode.Encoder(), Scalars(CharsOf(b)), |b|)
  {
    var s, n := Decode(b);
    c, n := Encode(s);
    DecodedScalars(b);
    ExactRoomIff(s);
    EncodesLegal(s, RoomLeft(Needed(s), 0));
    if Legal(b) {
      BytesRoundTrip(b);
    }
  }

  lemma EncodesLegal(s: seq<Unit>, room: Room)
    ensures Legal(Utf8Encode.Run(s, room).out)
  {
    Utf8Encode.RunIsFitting(s, room);
    EncodedIsLegal(Scalars(Written(Utf8Encode.Encoder(), Tokens(NextUnit, s), room)));
  }
}
