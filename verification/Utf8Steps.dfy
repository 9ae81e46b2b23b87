/**
  Taking a text apart from the front, one character at a time, whatever a text
  and a character are.
*/
module Utf8Steps {

  /** What can be taken from the front of some text: a scalar and how much it took, or nothing. */
  datatype Step<C> = Stop | Take(scalar: C, width: nat)

  datatype Token<C> = Token(scalar: C, width: nat)

  /** All that can be taken, one after the other. */
  function Tokens<S, C>(next: seq<S> -> Step<C>, s: seq<S>): seq<Token<C>>
    decreases |s|
  {
    var t := next(s);
    if t.Take? && 0 < t.width <= |s| then [Token(t.scalar, t.width)] + Tokens(next, s[t.width..]) else []
  }

  function Scalars<C>(ts: seq<Token<C>>): (cs: seq<C>)
    ensures |cs| == |ts|
  {
    if ts == [] then [] else [ts[0].scalar] + Scalars(ts[1..])
  }

  function Widths<C>(ts: seq<Token<C>>): nat {
    if ts == [] then 0 else ts[0].width + Widths(ts[1..])
  }

  /** What each of some scalars is turned into, one after the other. */
  function FlatMap<C, T>(out: C -> seq<T>, cs: seq<C>): seq<T> {
    if cs == [] then [] else out(cs[0]) + FlatMap(out, cs[1..])
  }

  lemma {:induction false} FlatMapAppend<C, T>(out: C -> seq<T>, cs: seq<C>, ds: seq<C>)
    ensures FlatMap(out, cs + ds) == FlatMap(out, cs) + FlatMap(out, ds)
  {
    if cs == [] {
      assert cs + ds == ds;
    } else {
      assert (cs + ds)[1..] == cs[1..] + ds;
      FlatMapAppend(out, cs[1..], ds);
    }
  }

  lemma {:induction false} ScalarsAppend<C>(ts: seq<Token<C>>, us: seq<Token<C>>)
    ensures Scalars(ts + us) == Scalars(ts) + Scalars(us) && Widths(ts + us) == Widths(ts) + Widths(us)
  {
    if ts == [] {
      assert ts + us == us;
    } else {
      assert (ts + us)[1..] == ts[1..] + us;
      ScalarsAppend(ts[1..], us);
    }
  }

  lemma TokensStep<S, C>(next: seq<S> -> Step<C>, s: seq<S>, c: C, width: nat)
    requires next(s) == Take(c, width) && 0 < width <= |s|
    ensures Tokens(next, s) == [Token(c, width)] + Tokens(next, s[width..])
  {
  }

  /** Dropping the first tokens' text drops those tokens. */
  lemma {:induction false} TokensSuffix<S, C>(next: seq<S> -> Step<C>, s: seq<S>, k: nat)
    requires k <= |Tokens(next, s)|
    ensures Widths(Tokens(next, s)[..k]) <= |s|
    ensures Tokens(next, s[Widths(Tokens(next, s)[..k])..]) == Tokens(next, s)[k..]
    decreases k
  {
    var ts := Tokens(next, s);
    if k == 0 {
      assert s[0..] == s && ts[0..] == ts;
    } else {
      var w := ts[0].width;
      TokensSuffix(next, s[w..], k - 1);
      assert ts[1..] == Tokens(next, s[w..]) && ts[..k][1..] == ts[1..][..k - 1];
      var rest := Widths(ts[1..][..k - 1]);
      assert s[w + rest..] == s[w..][rest..] && ts[k..] == ts[1..][k - 1..];
    }
  }

  /** What is taken does not depend on what comes after it. */
  ghost predicate Local<S(!new), C(!new)>(next: seq<S> -> Step<C>) {
    forall s: seq<S>, n: nat {:trigger s[..n]} ::
      n <= |s| && next(s).Take? && next(s).width <= n ==> next(s[..n]) == next(s)
  }

  /** Keeping the first tokens' text keeps those tokens and nothing else, if nothing is taken from nothing. */
  lemma {:induction false} TokensPrefix<S(!new), C(!new)>(next: seq<S> -> Step<C>, s: seq<S>, k: nat)
    requires Local(next) && k <= |Tokens(next, s)|
    ensures Widths(Tokens(next, s)[..k]) <= |s|
    ensures Tokens(next, s[..Widths(Tokens(next, s)[..k])]) == Tokens(next, s)[..k]
    decreases k
  {
    var ts := Tokens(next, s);
    if k > 0 {
      var w := ts[0].width;
      TokensPrefix(next, s[w..], k - 1);
      assert ts[1..] == Tokens(next, s[w..]) && ts[..k][1..] == ts[1..][..k - 1];
      var rest := Widths(ts[1..][..k - 1]);
      var cut := s[..w + rest];
      assert next(cut) == next(s);
      assert cut[w..] == s[w..][..rest];
      TokensStep(next, cut, ts[0].scalar, w);
      assert ts[..k] == [ts[0]] + ts[1..][..k - 1];
    }
  }

  // ---------- writing and reading back ----------

  /** What is written for a scalar is taken as that scalar, whatever follows. */
  ghost predicate Reads<S(!new), C(!new)>(next: seq<S> -> Step<C>, out: C -> seq<S>) {
    forall c: C, rest: seq<S> {:trigger ReadsAs(next, out, c, rest)} :: ReadsAs(next, out, c, rest)
  }

  predicate ReadsAs<S, C(==)>(next: seq<S> -> Step<C>, out: C -> seq<S>, c: C, rest: seq<S>) {
    0 < |out(c)| && next(out(c) + rest) == Take(c, |out(c)|)
  }

  /** All scalars written are taken back, and nothing else. */
  lemma {:induction false} ReadBack<S(!new), C(!new)>(next: seq<S> -> Step<C>, out: C -> seq<S>, cs: seq<C>)
    requires Reads(next, out) && next([]).Stop?
    ensures var ts := Tokens(next, FlatMap(out, cs)); Scalars(ts) == cs && Widths(ts) == |FlatMap(out, cs)|
  {
    if cs != [] {
      var bs, rest := out(cs[0]), FlatMap(out, cs[1..]);
      assert ReadsAs(next, out, cs[0], rest);
      ReadBack(next, out, cs[1..]);
      TokensStep(next, bs + rest, cs[0], |bs|);
      assert (bs + rest)[|bs|..] == rest;
      var ts := Tokens(next, rest);
      assert ([Token(cs[0], |bs|)] + ts)[1..] == ts;
    }
  }

  /** A scalar is taken from just what is written for it. */
  ghost predicate Writes<S(!new), C(!new)>(next: seq<S> -> Step<C>, out: C -> seq<S>) {
    forall s: seq<S> {:trigger next(s)} ::
      next(s).Take? ==> 0 < next(s).width <= |s| && out(next(s).scalar) == s[..next(s).width]
  }

  /** The text is what is written for its scalars, as far as they go. */
  lemma {:induction false} WriteBack<S(!new), C(!new)>(next: seq<S> -> Step<C>, out: C -> seq<S>, s: seq<S>)
    requires Writes(next, out)
    ensures var ts := Tokens(next, s); var w := Widths(ts);
      w <= |s| && FlatMap(out, Scalars(ts)) == s[..w] && next(s[w..]).Stop?
    decreases |s|
  {
    var t := next(s);
    if t.Take? {
      var rest := s[t.width..];
      WriteBack(next, out, rest);
      var ts := Tokens(next, rest);
      var w := Widths(ts);
      assert ([Token(t.scalar, t.width)] + ts)[1..] == ts;
      assert s[t.width + w..] == rest[w..];
      assert s[..t.width + w] == s[..t.width] + rest[..w];
    } else {
      assert s[0..] == s;
    }
  }

  /** The same for the first tokens. */
  lemma {:induction false} WriteBackPrefix<S(!new), C(!new)>(next: seq<S> -> Step<C>, out: C -> seq<S>,
                                                             s: seq<S>, n: nat)
    requires Writes(next, out) && n <= |Tokens(next, s)|
    ensures var w := Tokens(next, s)[..n]; Widths(w) <= |s| && FlatMap(out, Scalars(w)) == s[..Widths(w)]
    decreases n
  {
    if n > 0 {
      var t := next(s);
      var rest := s[t.width..];
      WriteBackPrefix(next, out, rest, n - 1);
      var ts := Tokens(next, rest)[..n - 1];
      assert Tokens(next, s)[..n] == [Token(t.scalar, t.width)] + ts;
      assert ([Token(t.scalar, t.width)] + ts)[1..] == ts;
      assert s[..t.width + Widths(ts)] == s[..t.width] + rest[..Widths(ts)];
    }
  }

  /** Every token takes something. */
  lemma {:induction false} WidthsPositive<S, C>(next: seq<S> -> Step<C>, s: seq<S>, n: nat)
    requires n <= |Tokens(next, s)|
    ensures Widths(Tokens(next, s)[n..]) == 0 <==> n == |Tokens(next, s)|
    decreases n
  {
    var ts := Tokens(next, s);
    if n > 0 {
      WidthsPositive(next, s[ts[0].width..], n - 1);
      assert ts[1..] == Tokens(next, s[ts[0].width..]) && ts[n..] == ts[1..][n - 1..];
    } else {
      assert ts[0..] == ts;
    }
  }
}
