/**
  The output of a converter: a buffer filled from the start, or, when the
  maximum length given is 0, only a count of what would be written.
*/
module Utf8Buffer {
  import opened Utf8Steps

  /** How much output may still be written; when counting, any amount. */
  datatype Room = Counting | Left(n: nat)

  function RoomLeft(max: nat, used: nat): Room {
    if max == 0 then Counting else if used <= max then Left(max - used) else Left(0)
  }

  function After(room: Room, n: nat): Room {
    match room
    case Counting => Counting
    case Left(m) => if n <= m then Left(m - n) else Left(0)
  }

  /** The output with some bytes written at an index. */
  ghost predicate Wrote<T>(s: seq<T>, t: seq<T>, at: nat, bs: seq<T>) {
    && at + |bs| <= |s| == |t|
    && (forall i :: at <= i < at + |bs| ==> t[i] == bs[i - at])
    && (forall i :: 0 <= i < |t| && !(at <= i < at + |bs|) ==> t[i] == s[i])
  }

  lemma WroteAppends<T>(s: seq<T>, t: seq<T>, at: nat, bs: seq<T>)
    requires Wrote(s, t, at, bs)
    ensures t[..at + |bs|] == s[..at] + bs && t[at + |bs|..] == s[at + |bs|..]
  {
  }

  /** Bytes written at the end of the output, unless only lengths are wanted. */
  ghost predicate Output<T>(s: seq<T>, t: seq<T>, max: nat, used: nat, bs: seq<T>) {
    if max == 0 then t == s else used + |bs| <= max && Wrote(s, t, used, bs)
  }

  /** How much input a run of the loop takes and what it makes of it. */
  datatype Outcome<T> = Outcome(taken: nat, out: seq<T>)

  /** The output so far, followed by what is still to come. */
  ghost predicate Midway<T>(all: Outcome<T>, was: seq<T>, now: seq<T>,
                            max: nat, consumed: nat, used: nat, r: Outcome<T>) {
    && |was| == |now| && consumed + r.taken == all.taken
    && used <= |all.out| && all.out[used..] == r.out
    && if max == 0 then now == was
       else used <= max <= |now| && now[..used] == all.out[..used] && now[used..] == was[used..]
  }

  lemma MidwayNext<T>(all: Outcome<T>, was: seq<T>, now: seq<T>, next: seq<T>, max: nat, consumed: nat, used: nat,
                   consumed': nat, used': nat, bs: seq<T>, r: Outcome<T>, r': Outcome<T>)
    requires Midway(all, was, now, max, consumed, used, r) && consumed <= consumed' && used' == used + |bs|
    requires r == Outcome(consumed' - consumed + r'.taken, bs + r'.out)
    requires Output(now, next, max, used, bs)
    ensures Midway(all, was, next, max, consumed', used', r')
  {
    AppendPart(all.out, used, bs, r'.out);
    if max != 0 {
      WroteAppends(now, next, used, bs);
      assert all.out[..used + |bs|] == all.out[..used] + bs;
      assert now[used + |bs|..] == now[used..][|bs|..];
      assert was[used + |bs|..] == was[used..][|bs|..];
    }
  }

  /** When nothing is still to come, the output is complete. */
  lemma MidwayDone<T>(all: Outcome<T>, was: seq<T>, now: seq<T>, max: nat, consumed: nat, used: nat)
    requires Midway(all, was, now, max, consumed, used, Outcome(0, []))
    ensures consumed == all.taken && used == |all.out| && Finished(was, now, max, all.out)
  {
    assert all.out[..used] == all.out;
  }

  lemma AppendPart<T>(all: seq<T>, used: nat, bs: seq<T>, rest: seq<T>)
    requires used <= |all| && all[used..] == bs + rest
    ensures used + |bs| <= |all| && all[used..used + |bs|] == bs && all[used + |bs|..] == rest
  {
    assert all[used..][..|bs|] == bs && all[used..][|bs|..] == rest;
  }

  /** The bytes at the start of the output, the rest of which is untouched. */
  ghost predicate Finished<T>(was: seq<T>, now: seq<T>, max: nat, bs: seq<T>) {
    if max == 0 then now == was
    else |bs| <= max <= |was| == |now| && now[..|bs|] == bs && now[|bs|..] == was[|bs|..]
  }

  // ---------- converters ----------

  /** What becomes of the next character: it is written, left for later, or taken without being written. */
  datatype Verdict = Write | Leave | Lose

  /** A converter: how it takes its input apart, what it writes, and when. */
  datatype Coder<!S, !C, !T> = Coder(next: seq<S> -> Step<C>, out: C -> seq<T>, rule: (C, Room) -> Verdict)

  /** A run of a converter on some characters. */
  function Drive<S, C, T>(k: Coder<S, C, T>, ts: seq<Token<C>>, room: Room): Outcome<T> {
    if ts == [] then Outcome(0, [])
    else
      var c := ts[0].scalar;
      match k.rule(c, room)
      case Write => Ahead(ts[0].width, k.out(c), Drive(k, ts[1..], After(room, |k.out(c)|)))
      case Leave => Outcome(0, [])
      case Lose => Outcome(ts[0].width, [])
  }

  function Ahead<T>(width: nat, bs: seq<T>, r: Outcome<T>): Outcome<T> {
    Outcome(width + r.taken, bs + r.out)
  }

  function Run<S, C, T>(k: Coder<S, C, T>, s: seq<S>, room: Room): Outcome<T> {
    Drive(k, Tokens(k.next, s), room)
  }

  /** One more character of the input, at an index. */
  lemma RunNext<S, C, T>(k: Coder<S, C, T>, s: seq<S>, i: nat, j: nat, c: C, room: Room)
    requires i < j <= |s| && k.next(s[i..]) == Take(c, j - i)
    ensures k.rule(c, room).Write? ==>
              Run(k, s[i..], room) == Ahead(j - i, k.out(c), Run(k, s[j..], After(room, |k.out(c)|)))
    ensures k.rule(c, room).Leave? ==> Run(k, s[i..], room) == Outcome(0, [])
    ensures k.rule(c, room).Lose? ==> Run(k, s[i..], room) == Outcome(j - i, [])
  {
    TokensStep(k.next, s[i..], c, j - i);
    assert s[i..][j - i..] == s[j..];
    assert Tokens(k.next, s[i..])[1..] == Tokens(k.next, s[j..]);
  }

  /** A turn of the loop that writes a character. */
  lemma TurnTaken<S, C, T>(k: Coder<S, C, T>, s: seq<S>, i: nat, j: nat, c: C, max: nat, used: nat, n: nat,
                           all: Outcome<T>, was: seq<T>, now: seq<T>, now': seq<T>)
    requires i < j <= |s| && k.next(s[i..]) == Take(c, j - i) && k.rule(c, RoomLeft(max, used)).Write?
    requires n == |k.out(c)| && Output(now, now', max, used, k.out(c))
    requires Midway(all, was, now, max, i, used, Run(k, s[i..], RoomLeft(max, used)))
    ensures Midway(all, was, now', max, j, used + n, Run(k, s[j..], RoomLeft(max, used + n)))
  {
    RunNext(k, s, i, j, c, RoomLeft(max, used));
    assert RoomLeft(max, used + n) == After(RoomLeft(max, used), n);
    MidwayNext(all, was, now, now', max, i, used, j, used + n, k.out(c),
               Run(k, s[i..], RoomLeft(max, used)), Run(k, s[j..], RoomLeft(max, used + n)));
  }

  /** A turn of the loop that writes nothing and is the last; a lost character counts as taken. */
  lemma TurnEnds<S, C, T>(k: Coder<S, C, T>, s: seq<S>, i: nat, j: nat, c: C, max: nat, used: nat,
                          all: Outcome<T>, was: seq<T>, now: seq<T>)
    requires i < j <= |s| && k.next(s[i..]) == Take(c, j - i) && !k.rule(c, RoomLeft(max, used)).Write?
    requires Midway(all, was, now, max, i, used, Run(k, s[i..], RoomLeft(max, used)))
    ensures Midway(all, was, now, max, if k.rule(c, RoomLeft(max, used)).Lose? then j else i, used, Outcome(0, []))
  {
    RunNext(k, s, i, j, c, RoomLeft(max, used));
  }

  lemma TurnStops<S, C, T>(k: Coder<S, C, T>, s: seq<S>, i: nat, max: nat, used: nat,
                           all: Outcome<T>, was: seq<T>, now: seq<T>)
    requires i <= |s| && k.next(s[i..]).Stop?
    requires Midway(all, was, now, max, i, used, Run(k, s[i..], RoomLeft(max, used)))
    ensures Midway(all, was, now, max, i, used, Outcome(0, []))
  {
  }

  // ---------- how far a run goes ----------

  /** The characters that are written. */
  function Written<S, C, T>(k: Coder<S, C, T>, ts: seq<Token<C>>, room: Room): (w: seq<Token<C>>)
    ensures |w| <= |ts|
  {
    if ts == [] || !k.rule(ts[0].scalar, room).Write? then []
    else [ts[0]] + Written(k, ts[1..], After(room, |k.out(ts[0].scalar)|))
  }

  /** The room when the run ends. */
  function RoomAtEnd<S, C, T>(k: Coder<S, C, T>, ts: seq<Token<C>>, room: Room): Room {
    if ts == [] || !k.rule(ts[0].scalar, room).Write? then room
    else RoomAtEnd(k, ts[1..], After(room, |k.out(ts[0].scalar)|))
  }

  /** The run ends by taking a character that it does not write. */
  predicate Loses<S, C, T>(k: Coder<S, C, T>, ts: seq<Token<C>>, room: Room) {
    var n := |Written(k, ts, room)|;
    n < |ts| && k.rule(ts[n].scalar, RoomAtEnd(k, ts, room)).Lose?
  }

  /** How many characters a run takes, written or not. */
  function TokensTaken<S, C, T>(k: Coder<S, C, T>, ts: seq<Token<C>>, room: Room): (n: nat)
    ensures n <= |ts|
  {
    |Written(k, ts, room)| + if Loses(k, ts, room) then 1 else 0
  }

  lemma WrittenNext<S, C, T>(k: Coder<S, C, T>, ts: seq<Token<C>>, room: Room)
    requires ts != [] && k.rule(ts[0].scalar, room).Write?
    ensures var room' := After(room, |k.out(ts[0].scalar)|);
      && Written(k, ts, room) == [ts[0]] + Written(k, ts[1..], room')
      && RoomAtEnd(k, ts, room) == RoomAtEnd(k, ts[1..], room')
      && (Loses(k, ts, room) <==> Loses(k, ts[1..], room'))
  {
  }

  /** A run writes the characters it can and takes their input, and that of one it loses. */
  lemma {:induction false} DriveIs<S, C, T>(k: Coder<S, C, T>, ts: seq<Token<C>>, room: Room)
    ensures Written(k, ts, room) <= ts
    ensures Drive(k, ts, room) ==
            Outcome(Widths(ts[..TokensTaken(k, ts, room)]), FlatMap(k.out, Scalars(Written(k, ts, room))))
  {
    if ts != [] && k.rule(ts[0].scalar, room).Write? {
      var room' := After(room, |k.out(ts[0].scalar)|);
      DriveIs(k, ts[1..], room');
      WrittenNext(k, ts, room);
      var n := TokensTaken(k, ts[1..], room');
      assert ts[..n + 1][1..] == ts[1..][..n];
      assert Scalars(Written(k, ts, room))[1..] == Scalars(Written(k, ts[1..], room'));
    } else if ts != [] {
      assert ts[..1][1..] == [];
    }
  }

  /** When counting, everything is written. */
  ghost predicate CountsAll<S, C(!new), T>(k: Coder<S, C, T>) {
    forall c {:trigger k.rule(c, Counting)} :: k.rule(c, Counting).Write?
  }

  lemma {:induction false} CountingWritesAll<S, C(!new), T>(k: Coder<S, C, T>, ts: seq<Token<C>>)
    requires CountsAll(k)
    ensures Written(k, ts, Counting) == ts && !Loses(k, ts, Counting)
    ensures Drive(k, ts, Counting) == Outcome(Widths(ts), FlatMap(k.out, Scalars(ts)))
  {
    if ts != [] {
      CountingWritesAll(k, ts[1..]);
      WrittenNext(k, ts, Counting);
    }
    DriveIs(k, ts, Counting);
    assert ts[..|ts|] == ts;
  }

  /** One run, and another on what it left, do what a single run does. */
  ghost predicate Resumes<T>(all: Outcome<T>, r: Outcome<T>, rest: Outcome<T>) {
    all.taken == r.taken + rest.taken && all.out == r.out + rest.out
  }

  /** Every character is turned into something. */
  ghost predicate WritesSomething<S, C(!new), T>(k: Coder<S, C, T>) {
    forall c {:trigger k.out(c)} :: |k.out(c)| > 0
  }

  /** After what a run took, the rest of the characters are left. */
  lemma RunRest<S, C(!new), T>(k: Coder<S, C, T>, s: seq<S>, room: Room)
    requires CountsAll(k)
    ensures var ts := Tokens(k.next, s); var n := TokensTaken(k, ts, room);
      && Run(k, s, room).taken == Widths(ts[..n]) <= |s|
      && Run(k, s[Widths(ts[..n])..], Counting) == Outcome(Widths(ts[n..]), FlatMap(k.out, Scalars(ts[n..])))
  {
    var ts := Tokens(k.next, s);
    var n := TokensTaken(k, ts, room);
    DriveIs(k, ts, room);
    TokensSuffix(k.next, s, n);
    CountingWritesAll(k, ts[n..]);
  }

  /** What a run took holds the characters it took. */
  lemma RunPart<S(!new), C(!new), T>(k: Coder<S, C, T>, s: seq<S>, room: Room)
    requires CountsAll(k) && Local(k.next)
    ensures var ts := Tokens(k.next, s); var n := TokensTaken(k, ts, room);
      && Run(k, s, room).taken == Widths(ts[..n]) <= |s|
      && Run(k, s[..Widths(ts[..n])], Counting).out == FlatMap(k.out, Scalars(ts[..n]))
  {
    var ts := Tokens(k.next, s);
    var n := TokensTaken(k, ts, room);
    DriveIs(k, ts, room);
    TokensPrefix(k.next, s, n);
    CountingWritesAll(k, ts[..n]);
  }

  /**
    Input may be converted piece by piece, going on after what was taken: all of
    it is accounted for, and all is written if and only if nothing was lost.
  */
  lemma ResumeIff<S, C(!new), T>(k: Coder<S, C, T>, s: seq<S>, room: Room)
    requires CountsAll(k) && WritesSomething(k)
    ensures Run(k, s, room).taken <= |s|
    ensures var all, r := Run(k, s, Counting), Run(k, s, room); var rest := Run(k, s[r.taken..], Counting);
      all.taken == r.taken + rest.taken && (Resumes(all, r, rest) <==> !Loses(k, Tokens(k.next, s), room))
  {
    var ts := Tokens(k.next, s);
    RunRest(k, s, room);
    DriveIs(k, ts, room);
    CountingWritesAll(k, ts);
    PartsAddUp(k, ts, room);
  }

  lemma PartsAddUp<S, C(!new), T>(k: Coder<S, C, T>, ts: seq<Token<C>>, room: Room)
    requires WritesSomething(k) && Written(k, ts, room) <= ts
    ensures var n, w := TokensTaken(k, ts, room), Written(k, ts, room);
      && Widths(ts) == Widths(ts[..n]) + Widths(ts[n..])
      && (FlatMap(k.out, Scalars(ts)) == FlatMap(k.out, Scalars(w)) + FlatMap(k.out, Scalars(ts[n..])) <==>
          !Loses(k, ts, room))
  {
    var n := TokensTaken(k, ts, room);
    SplitAt(k.out, ts, n);
    TakenIffWritten(k, ts, room);
    Cancel(FlatMap(k.out, Scalars(ts[..n])), FlatMap(k.out, Scalars(Written(k, ts, room))),
           FlatMap(k.out, Scalars(ts[n..])));
  }

  lemma SplitAt<C, T>(out: C -> seq<T>, ts: seq<Token<C>>, n: nat)
    requires n <= |ts|
    ensures Widths(ts) == Widths(ts[..n]) + Widths(ts[n..])
    ensures FlatMap(out, Scalars(ts)) == FlatMap(out, Scalars(ts[..n])) + FlatMap(out, Scalars(ts[n..]))
  {
    JoinParts(out, ts[..n], ts[n..]);
    assert ts == ts[..n] + ts[n..];
  }

  lemma JoinParts<C, T>(out: C -> seq<T>, x: seq<Token<C>>, y: seq<Token<C>>)
    ensures Widths(x + y) == Widths(x) + Widths(y)
    ensures FlatMap(out, Scalars(x + y)) == FlatMap(out, Scalars(x)) + FlatMap(out, Scalars(y))
  {
    ScalarsAppend(x, y);
    FlatMapAppend(out, Scalars(x), Scalars(y));
  }

  lemma Cancel<T>(x: seq<T>, y: seq<T>, z: seq<T>)
    ensures x + z == y + z <==> x == y
  {
    if x + z == y + z {
      assert |x| == |y| && x == (x + z)[..|x|] && y == (y + z)[..|y|];
    }
  }

  /** What is taken is what is written just when nothing is lost. */
  lemma TakenIffWritten<S, C(!new), T>(k: Coder<S, C, T>, ts: seq<Token<C>>, room: Room)
    requires WritesSomething(k) && Written(k, ts, room) <= ts
    ensures var n, w := TokensTaken(k, ts, room), Written(k, ts, room);
      FlatMap(k.out, Scalars(ts[..n])) == FlatMap(k.out, Scalars(w)) <==> !Loses(k, ts, room)
  {
    var n, m := TokensTaken(k, ts, room), |Written(k, ts, room)|;
    assert ts[..m] == Written(k, ts, room);
    if m < n {
      OneMore(k.out, ts, m);
    }
  }

  lemma OneMore<C, T>(out: C -> seq<T>, ts: seq<Token<C>>, m: nat)
    requires m < |ts| && |out(ts[m].scalar)| > 0
    ensures |FlatMap(out, Scalars(ts[..m + 1]))| > |FlatMap(out, Scalars(ts[..m]))|
  {
    assert ts[..m + 1] == ts[..m] + [ts[m]];
    ScalarsAppend(ts[..m], [ts[m]]);
    assert Scalars([ts[m]]) == [ts[m].scalar];
    FlatMapAppend(out, Scalars(ts[..m]), [ts[m].scalar]);
    assert FlatMap(out, [ts[m].scalar]) == out(ts[m].scalar) + FlatMap(out, []);
  }

  /** The input taken stands for exactly what was written if and only if nothing was lost. */
  lemma LosesNothingIff<S(!new), C(!new), T>(k: Coder<S, C, T>, s: seq<S>, room: Room)
    requires CountsAll(k) && WritesSomething(k) && Local(k.next)
    ensures var r := Run(k, s, room);
      r.taken <= |s| && (Run(k, s[..r.taken], Counting).out == r.out <==> !Loses(k, Tokens(k.next, s), room))
  {
    RunPart(k, s, room);
    DriveIs(k, Tokens(k.next, s), room);
    TakenIffWritten(k, Tokens(k.next, s), room);
  }

  // ---------- as much as there is room for ----------

  /** The longest prefix for whose output there is room. */
  ghost predicate Longest<C, T>(out: C -> seq<T>, ts: seq<Token<C>>, w: seq<Token<C>>, n: nat) {
    && w <= ts && |FlatMap(out, Scalars(w))| <= n
    && (|w| < |ts| ==> n < |FlatMap(out, Scalars(w))| + |out(ts[|w|].scalar)|)
  }

  /** A character for which there is room is not written. */
  predicate Stumbles<S, C, T>(k: Coder<S, C, T>, cs: seq<C>, n: nat) {
    cs != [] && |k.out(cs[0])| <= n
    && (!k.rule(cs[0], Left(n)).Write? || Stumbles(k, cs[1..], n - |k.out(cs[0])|))
  }

  /** Nothing is written without room. */
  ghost predicate NeedsRoom<S, C(!new), T>(k: Coder<S, C, T>) {
    forall c, n {:trigger k.rule(c, Left(n))} :: k.rule(c, Left(n)).Write? ==> |k.out(c)| <= n
  }

  /** As much is written as there is room for if and only if the converter never stumbles. */
  lemma {:induction false} LongestIff<S, C(!new), T>(k: Coder<S, C, T>, ts: seq<Token<C>>, n: nat)
    requires NeedsRoom(k)
    ensures Longest(k.out, ts, Written(k, ts, Left(n)), n) <==> !Stumbles(k, Scalars(ts), n)
    ensures |FlatMap(k.out, Scalars(Written(k, ts, Left(n))))| <= n
  {
    if ts != [] && k.rule(ts[0].scalar, Left(n)).Write? {
      var m := n - |k.out(ts[0].scalar)|;
      LongestIff(k, ts[1..], m);
      WrittenNext(k, ts, Left(n));
      LongestJoin(k.out, ts, Written(k, ts[1..], Left(m)), n);
      assert Scalars(ts)[1..] == Scalars(ts[1..]);
    }
  }

  lemma LongestJoin<C, T>(out: C -> seq<T>, ts: seq<Token<C>>, w: seq<Token<C>>, n: nat)
    requires ts != [] && |out(ts[0].scalar)| <= n
    ensures Longest(out, ts, [ts[0]] + w, n) <==> Longest(out, ts[1..], w, n - |out(ts[0].scalar)|)
    ensures |FlatMap(out, Scalars([ts[0]] + w))| == |out(ts[0].scalar)| + |FlatMap(out, Scalars(w))|
  {
    assert ([ts[0]] + w)[1..] == w;
    assert Scalars([ts[0]] + w) == [ts[0].scalar] + Scalars(w);
    assert ([ts[0].scalar] + Scalars(w))[1..] == Scalars(w);
    assert [ts[0]] + w <= ts <==> w <= ts[1..];
  }

  /** Room for everything is enough, unless the converter stumbles. */
  lemma {:induction false} RoomForAll<S, C(!new), T>(k: Coder<S, C, T>, ts: seq<Token<C>>, n: nat)
    requires |FlatMap(k.out, Scalars(ts))| <= n && !Stumbles(k, Scalars(ts), n)
    ensures Written(k, ts, Left(n)) == ts
  {
    if ts != [] {
      assert Scalars(ts)[1..] == Scalars(ts[1..]);
      RoomForAll(k, ts[1..], n - |k.out(ts[0].scalar)|);
    }
  }

  /** With room for everything, everything is written if and only if the converter does not stumble. */
  lemma AllWrittenIff<S, C(!new), T>(k: Coder<S, C, T>, ts: seq<Token<C>>)
    requires NeedsRoom(k) && WritesSomething(k)
    ensures var n := |FlatMap(k.out, Scalars(ts))|; var w := Written(k, ts, Left(n));
      && (w == ts <==> !Stumbles(k, Scalars(ts), n))
      && (w == ts <==> FlatMap(k.out, Scalars(w)) == FlatMap(k.out, Scalars(ts)))
      && Widths(w) <= Widths(ts)
  {
    var n := |FlatMap(k.out, Scalars(ts))|;
    var w := Written(k, ts, Left(n));
    LongestIff(k, ts, n);
    DriveIs(k, ts, Left(n));
    if |w| < |ts| {
      assert ts[..|w|] == w;
      OneMore(k.out, ts, |w|);
      SplitAt(k.out, ts, |w| + 1);
    }
    SplitAt(k.out, ts, |w|);
    assert ts[..|w|] == w;
  }
}
