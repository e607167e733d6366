/** Splitting a command line into tokens, in place. */
module Splitter {
  import opened Bytes

  /** Most tokens a command may have. */
  const TOKENS: nat := 8

  const BACKSLASH: byte := 92

  predicate IsQuote(b: byte) {
    b == 34 || b == 39
  }

  predicate QuoteFree(s: Text) {
    forall i :: 0 <= i < |s| ==> !IsQuote(s[i])
  }

  predicate SpaceFree(s: Text) {
    forall i :: 0 <= i < |s| ==> s[i] != SPACE
  }

  predicate AllSpaceFree(ts: seq<Text>) {
    forall i :: 0 <= i < |ts| ==> SpaceFree(ts[i])
  }

  datatype Words = Words(tokens: seq<Text>) | TooMany

  // ---------------------------------------------------------------------------
  // Specification
  // ---------------------------------------------------------------------------

  /** The bytes before the first space. */
  function Word(s: Text): (w: Text)
    ensures |w| <= |s| && w == s[..|w|] && SpaceFree(w)
    ensures |w| < |s| ==> s[|w|] == SPACE
  {
    if s == [] || s[0] == SPACE then [] else [s[0]] + Word(s[1..])
  }

  /** The bytes before the first quote. */
  function Cut(s: Text): (t: Text)
    ensures |t| <= |s| && t == s[..|t|] && QuoteFree(t)
    ensures |t| < |s| ==> IsQuote(s[|t|])
  {
    if s == [] || IsQuote(s[0]) then [] else [s[0]] + Cut(s[1..])
  }

  datatype Quoted = Closed(at: nat) | Unclosed | PastLimit

  /** From inside a quoted word: where it is closed. A backslash protects a quote after it. */
  function QuoteEnd(s: Text, i: nat, limit: int): (q: Quoted)
    requires i <= |s|
    ensures q.Closed? ==> i <= q.at < |s|
    decreases |s| - i
  {
    if i == |s| then Unclosed
    else if i >= limit then PastLimit
    else if s[i] == BACKSLASH then
      QuoteEnd(s, if i + 1 < |s| && IsQuote(s[i + 1]) then i + 2 else i + 1, limit)
    else if IsQuote(s[i]) then Closed(i)
    else QuoteEnd(s, i + 1, limit)
  }

  function Cons(w: Text, rest: Words): Words {
    match rest
    case TooMany => TooMany
    case Words(ts) => Words([w] + ts)
  }

  /** The first token, what is left after it, and how many bytes that took. */
  datatype Taken = Past | Taken(token: Text, left: Text, used: nat)

  /** One token off the front of `s`; a word that reaches past the first `limit` bytes is none. */
  function TakeOne(s: Text, limit: int): (taken: Taken)
    requires s != []
    ensures taken.Taken? ==> |taken.left| < |s|
  {
    if IsQuote(s[0]) then
      match QuoteEnd(s, 1, limit)
      case PastLimit => Past
      case Unclosed => Taken(s[1..], [], |s|)
      case Closed(q) => Taken(s[1..q], s[q + 1..], q + 1)
    else
      var w := Word(s);
      if w != [] && limit < |w| then Past
      else if w == s then Taken(Cut(w), [], |w|)
      else Taken(Cut(w), s[|w| + 1..], |w| + 1)
  }

  /**
   The tokens of the C string `s`, where `n` came before. Only the first `limit` bytes
   belong to the command: a word that reaches past them is dropped and ends the split.
   */
  function SplitFrom(s: Text, limit: int, n: nat): Words
    decreases |s|, 0
  {
    if s == [] then Words([])
    else
      match TakeOne(s, limit)
      case Past => Words([])
      case Taken(token, left, used) => Cons(token, SplitNext(left, limit - used, n + 1))
  }

  /** After `n` tokens: the test for one too many. */
  function SplitNext(s: Text, limit: int, n: nat): Words
    decreases |s|, 1
  {
    if n == TOKENS && s != [] then TooMany else SplitFrom(s, limit, n)
  }

  function Split(s: Text, limit: nat): Words {
    SplitFrom(s, limit, 0)
  }

  // ---------------------------------------------------------------------------
  // Quote-free lines
  // ---------------------------------------------------------------------------

  function Spaces(s: Text): nat {
    if s == [] then 0 else (if s[0] == SPACE then 1 else 0) + Spaces(s[1..])
  }

  /** The line without one trailing space. */
  function Body(s: Text): Text {
    if s != [] && s[|s| - 1] == SPACE then s[..|s| - 1] else s
  }

  /** The tokens with one space between each two. */
  function Join(ts: seq<Text>): Text {
    if ts == [] then [] else if |ts| == 1 then ts[0] else ts[0] + [SPACE] + Join(ts[1..])
  }

  /** Number of words between spaces; a trailing space does not start one. */
  function Fields(s: Text): nat {
    if s == [] then 0 else Spaces(Body(s)) + 1
  }

  lemma {:induction false} SpacesConcat(a: Text, b: Text)
    ensures Spaces(a + b) == Spaces(a) + Spaces(b)
  {
    if a == [] {
      assert a + b == b;
    } else {
      SpacesConcat(a[1..], b);
      assert (a + b)[1..] == a[1..] + b;
    }
  }

  lemma {:induction false} NoSpaces(s: Text)
    requires SpaceFree(s)
    ensures Spaces(s) == 0
  {
    if s != [] {
      NoSpaces(s[1..]);
    }
  }

  /** What follows the first word and its space. */
  function Rest(s: Text): Text {
    if Word(s) == s then [] else s[|Word(s)| + 1..]
  }

  /** The words between spaces, with no bound on their number. */
  function FieldsOf(s: Text): (ts: seq<Text>)
    requires s != []
    ensures |ts| >= 1
    decreases |s|
  {
    if Rest(s) == [] then [Word(s)] else [Word(s)] + FieldsOf(Rest(s))
  }

  lemma WordRest(s: Text)
    requires s != []
    ensures if Rest(s) != [] then s == Word(s) + [SPACE] + Rest(s) else s == Word(s) || s == Word(s) + [SPACE]
  {
  }

  /** The fields, joined with single spaces, are the line minus at most one trailing space. */
  lemma {:induction false} FieldsJoin(s: Text)
    requires s != []
    ensures Join(FieldsOf(s)) == Body(s) && |FieldsOf(s)| == Fields(s)
    decreases |s|
  {
    WordRest(s);
    if Rest(s) != [] {
      FieldsJoin(Rest(s));
      BodySplit(s, Word(s), Rest(s));
      JoinPrepend(Word(s), FieldsOf(Rest(s)));
    } else {
      BodyOfWord(s, Word(s));
    }
  }

  lemma {:induction false} FieldsSpaceFree(s: Text)
    requires s != []
    ensures AllSpaceFree(FieldsOf(s))
    decreases |s|
  {
    if Rest(s) != [] {
      FieldsSpaceFree(Rest(s));
    }
  }

  lemma JoinPrepend(w: Text, ts: seq<Text>)
    requires |ts| >= 1
    ensures Join([w] + ts) == w + [SPACE] + Join(ts)
  {
    assert ([w] + ts)[1..] == ts;
  }

  lemma BodyOfWord(s: Text, w: Text)
    requires s != [] && SpaceFree(w) && (s == w || s == w + [SPACE])
    ensures Body(s) == w && Fields(s) == 1
  {
    NoSpaces(w);
  }

  lemma BodySplit(s: Text, w: Text, rest: Text)
    requires s == w + [SPACE] + rest && rest != [] && SpaceFree(w)
    ensures Body(s) == w + [SPACE] + Body(rest) && Fields(s) == 1 + Fields(rest)
  {
    NoSpaces(w);
    SpacesConcat(w, [SPACE]);
    SpacesConcat(w + [SPACE], Body(rest));
  }

  lemma TakeWordOnly(s: Text, limit: int)
    requires s != [] && QuoteFree(s)
    ensures TakeOne(s, limit) ==
            if Word(s) != [] && limit < |Word(s)| then Past
            else Taken(Word(s), Rest(s), if Word(s) == s then |s| else |Word(s)| + 1)
    ensures QuoteFree(Rest(s)) && (Rest(s) != [] ==> |s| - |Rest(s)| == |Word(s)| + 1)
  {
    CutQuoteFree(Word(s));
  }

  /** One word of a quote-free line. */
  lemma SplitWord(s: Text, limit: int, n: nat)
    requires s != [] && QuoteFree(s)
    ensures SplitFrom(s, limit, n) ==
            if Word(s) != [] && limit < |Word(s)| then Words([])
            else if Rest(s) != [] then Cons(Word(s), SplitNext(Rest(s), limit - (|s| - |Rest(s)|), n + 1))
            else Words([Word(s)])
    ensures QuoteFree(Rest(s)) && (Rest(s) != [] ==> |s| - |Rest(s)| == |Word(s)| + 1)
  {
    TakeWordOnly(s, limit);
    var w, rest := Word(s), Rest(s);
    if !(w != [] && limit < |w|) {
      var used := if w == s then |s| else |w| + 1;
      assert SplitFrom(s, limit, n) == Cons(w, SplitNext(rest, limit - used, n + 1));
      if rest == [] {
        NextWithRoom(rest, limit - used, n + 1);
        assert [w] + [] == [w];
      }
    }
  }

  /** Unless there is one token too many, the split goes on. */
  lemma NextWithRoom(s: Text, limit: int, n: nat)
    requires n != TOKENS || s == []
    ensures SplitNext(s, limit, n) == SplitFrom(s, limit, n)
    ensures s == [] ==> SplitNext(s, limit, n) == Words([])
  {
  }

  lemma CutQuoteFree(s: Text)
    requires QuoteFree(s)
    ensures Cut(s) == s
  {
  }

  lemma FieldsMore(s: Text, rest: Text)
    requires rest == Rest(s) != []
    ensures FieldsOf(s) == [Word(s)] + FieldsOf(rest) && |FieldsOf(s)| == 1 + |FieldsOf(rest)|
  {
  }

  /** The tokens `ts`, if there is room for them after `n` others. */
  function Counted(ts: seq<Text>, n: nat): Words {
    if n + |ts| <= TOKENS then Words(ts) else TooMany
  }

  lemma ConsCounted(w: Text, ts: seq<Text>, n: nat)
    ensures Cons(w, Counted(ts, n + 1)) == Counted([w] + ts, n)
  {
  }

  lemma NextCounted(rest: Text, n: nat, ts: seq<Text>)
    requires rest != [] && ts != [] && n <= TOKENS
    requires n < TOKENS ==> SplitFrom(rest, |rest|, n) == Counted(ts, n)
    ensures SplitNext(rest, |rest|, n) == Counted(ts, n)
  {
  }

  lemma SplitInner(s: Text, n: nat, ts: seq<Text>)
    requires s != [] && QuoteFree(s) && Rest(s) != [] && ts != [] && n < TOKENS
    requires n + 1 < TOKENS ==> SplitFrom(Rest(s), |Rest(s)|, n + 1) == Counted(ts, n + 1)
    ensures SplitFrom(s, |s|, n) == Counted([Word(s)] + ts, n)
  {
    SplitWord(s, |s|, n);
    NextCounted(Rest(s), n + 1, ts);
    ConsCounted(Word(s), ts, n);
  }

  /** On a quote-free line within the limit the split yields the fields, if there is room for them. */
  lemma {:induction false} SplitFields(s: Text, n: nat)
    requires s != [] && QuoteFree(s) && n < TOKENS
    ensures SplitFrom(s, |s|, n) == Counted(FieldsOf(s), n)
    decreases |s|
  {
    if Rest(s) == [] {
      SplitWord(s, |s|, n);
    } else {
      if n + 1 < TOKENS {
        SplitFields(Rest(s), n + 1);
      }
      FieldsMore(s, Rest(s));
      SplitInner(s, n, FieldsOf(Rest(s)));
    }
  }

  /**
   Splitting a quote-free line: too many tokens exactly when it has more than `TOKENS`
   fields; otherwise one token a field, no token holds a space, and the tokens joined by
   single spaces are the line minus at most one trailing space.
   */
  lemma SplitQuoteFree(s: Text)
    requires QuoteFree(s)
    ensures Split(s, |s|).TooMany? <==> Fields(s) > TOKENS
    ensures Split(s, |s|).Words? ==>
              var ts := Split(s, |s|).tokens;
              |ts| == Fields(s) && Join(ts) == Body(s) && AllSpaceFree(ts)
  {
    if s != [] {
      SplitFields(s, 0);
      FieldsJoin(s);
      FieldsSpaceFree(s);
    }
  }

  /** Space-free tokens are determined by their join: the split loses nothing else. */
  lemma {:induction false} JoinInjective(a: seq<Text>, b: seq<Text>)
    requires AllSpaceFree(a) && AllSpaceFree(b)
    requires |a| >= 1 && |b| >= 1 && Join(a) == Join(b)
    ensures a == b
    decreases |a|
  {
    JoinHead(a);
    JoinHead(b);
    if |a| > 1 {
      JoinInjective(a[1..], b[1..]);
    }
    assert a == [a[0]] + a[1..] && b == [b[0]] + b[1..];
  }

  lemma JoinHead(a: seq<Text>)
    requires |a| >= 1 && SpaceFree(a[0])
    ensures var j := Join(a);
            Word(j) == a[0] && if |a| > 1 then Word(j) != j && Rest(j) == Join(a[1..]) else Word(j) == j
  {
    var j := Join(a);
    if |a| > 1 {
      assert j == a[0] + [SPACE] + Join(a[1..]);
      assert j[|a[0]|] == SPACE;
    }
    WordIs(j, a[0]);
  }

  lemma {:induction false} WordIs(s: Text, w: Text)
    requires |w| <= |s| && w == s[..|w|] && SpaceFree(w) && (|w| < |s| ==> s[|w|] == SPACE)
    ensures Word(s) == w
  {
    if w != [] {
      assert s[0] == w[0];
      WordIs(s[1..], w[1..]);
    }
  }

  // ---------------------------------------------------------------------------
  // A line whose buffer is not cut off by a NUL
  // ---------------------------------------------------------------------------

  /** The bytes `stale` right after a line of `n` tokens leave its split as it would be without them. */
  predicate Harmless(stale: Text, n: nat) {
    || stale == []
    || (stale[0] == SPACE && (|stale| == 1 || (stale[1] != SPACE && n < TOKENS)))
  }

  /** The tokens `ts` in front of a split. */
  function Prepend(ts: seq<Text>, rest: Words): Words {
    match rest
    case TooMany => TooMany
    case Words(more) => Words(ts + more)
  }

  /** What `stale` makes of a line with the tokens `ts`, where `n` came before. */
  function WithStale(ts: seq<Text>, stale: Text, n: nat): Words
    requires ts != []
  {
    if stale == [] then Words(ts)
    else if stale[0] != SPACE then Words(ts[..|ts| - 1])
    else Prepend(ts, SplitNext(stale[1..], -1, n + |ts|))
  }

  lemma StaleInner(s: Text, stale: Text, n: nat, ts: seq<Text>)
    requires Rest(s) != [] && QuoteFree(s) && QuoteFree(stale) && ts != [] && n + 1 != TOKENS
    requires SplitFrom(Rest(s) + stale, |Rest(s)|, n + 1) == WithStale(ts, stale, n + 1)
    ensures SplitFrom(s + stale, |s|, n) == WithStale([Word(s)] + ts, stale, n)
  {
    WordAppend(s, stale);
    SplitWord(s + stale, |s|, n);
    NextWithRoom(Rest(s) + stale, |Rest(s)|, n + 1);
    ConsWithStale(Word(s), ts, stale, n);
  }

  lemma {:induction false} StaleFields(s: Text, stale: Text, n: nat)
    requires s != [] && QuoteFree(s) && QuoteFree(stale) && s[|s| - 1] != SPACE
    requires n + |FieldsOf(s)| <= TOKENS
    ensures SplitFrom(s + stale, |s|, n) == WithStale(FieldsOf(s), stale, n)
    decreases |s|
  {
    WordRest(s);
    if Rest(s) != [] {
      FieldsMore(s, Rest(s));
      StaleFields(Rest(s), stale, n + 1);
      StaleInner(s, stale, n, FieldsOf(Rest(s)));
    } else {
      StaleLast(s, stale, n);
    }
  }

  lemma WordAppend(s: Text, t: Text)
    requires Rest(s) != []
    ensures Word(s + t) == Word(s) && Rest(s + t) == Rest(s) + t
  {
    WordIs(s + t, Word(s));
  }

  lemma ConsWithStale(w: Text, ts: seq<Text>, stale: Text, n: nat)
    requires ts != []
    ensures Cons(w, WithStale(ts, stale, n + 1)) == WithStale([w] + ts, stale, n)
  {
    if stale != [] && stale[0] == SPACE {
      match SplitNext(stale[1..], -1, n + 1 + |ts|)
      case TooMany =>
      case Words(more) => assert [w] + (ts + more) == [w] + ts + more;
    }
  }

  lemma StaleLast(w: Text, stale: Text, n: nat)
    requires w != [] && SpaceFree(w) && QuoteFree(w) && QuoteFree(stale)
    ensures SplitFrom(w + stale, |w|, n) == WithStale([w], stale, n)
  {
    SplitWord(w + stale, |w|, n);
    if stale == [] {
      assert w + stale == w;
      WordIs(w, w);
    } else if stale[0] == SPACE {
      WordIs(w + stale, w);
      assert Rest(w + stale) == stale[1..];
    } else {
      LongerWord(w, stale);
    }
  }

  lemma {:induction false} LongerWord(s: Text, stale: Text)
    requires SpaceFree(s) && stale != [] && stale[0] != SPACE
    ensures |Word(s + stale)| > |s|
  {
    if s == [] {
      assert s + stale == stale;
    } else {
      LongerWord(s[1..], stale);
      assert (s + stale)[1..] == s[1..] + stale;
    }
  }

  lemma HarmlessStale(ts: seq<Text>, stale: Text)
    requires 1 <= |ts| <= TOKENS && QuoteFree(stale)
    ensures WithStale(ts, stale, 0) == Words(ts) <==> Harmless(stale, |ts|)
  {
    if stale != [] {
      if stale[0] != SPACE {
        assert |ts[..|ts| - 1]| != |ts|;
      } else {
        var tail := stale[1..];
        if tail != [] {
          SplitWord(tail, -1, |ts|);
        }
        var next := SplitNext(tail, -1, |ts|);
        assert next == Words([]) <==> tail == [] || (tail[0] != SPACE && |ts| < TOKENS);
        PrependNothing(ts, next);
      }
    }
  }

  lemma PrependNothing(ts: seq<Text>, rest: Words)
    ensures Prepend(ts, rest) == Words(ts) <==> rest == Words([])
  {
    if rest.Words? {
      assert |ts + rest.tokens| == |ts| + |rest.tokens|;
      assert ts + [] == ts;
    }
  }

  lemma SpaceRest(s: Text)
    requires s != [] && QuoteFree(s) && s[|s| - 1] == SPACE
    ensures s == Word(s) + [SPACE] + Rest(s) && QuoteFree(Word(s)) && QuoteFree(Rest(s))
    ensures Rest(s) != [] ==> Rest(s)[|Rest(s)| - 1] == SPACE
  {
    WordRest(s);
  }

  lemma SpaceHead(s: Text, w: Text, rest: Text, stale: Text, n: nat)
    requires s == w + [SPACE] + rest && SpaceFree(w) && QuoteFree(w)
    ensures SplitFrom(s + stale, |s|, n) == Cons(w, SplitNext(rest + stale, |rest|, n + 1))
  {
    assert s + stale == w + [SPACE] + (rest + stale);
    SplitBeforeSpace(w, rest + stale, |s|, n);
    assert |s| - |w| - 1 == |rest|;
  }

  lemma SpaceEnd(w: Text, stale: Text, n: nat, tail: Words)
    requires tail == SplitNext(stale, 0, n + 1)
    ensures Cons(w, SplitNext([] + stale, 0, n + 1)) == Prepend([w], tail)
  {
    assert [] + stale == stale && [w] + [] == [w];
    ConsPrepend(w, [], tail);
  }

  lemma SpaceMore(w: Text, ts: seq<Text>, after: Text, limit: int, n: nat, tail: Words)
    requires n + 1 != TOKENS && SplitFrom(after, limit, n + 1) == Prepend(ts, tail)
    ensures Cons(w, SplitNext(after, limit, n + 1)) == Prepend([w] + ts, tail)
  {
    NextWithRoom(after, limit, n + 1);
    ConsPrepend(w, ts, tail);
  }

  lemma SpaceLast(s: Text, stale: Text, n: nat, tail: Words)
    requires s != [] && QuoteFree(s) && s[|s| - 1] == SPACE && Rest(s) == []
    requires tail == SplitNext(stale, 0, n + 1)
    ensures SplitFrom(s + stale, |s|, n) == Prepend(FieldsOf(s), tail)
  {
    SpaceRest(s);
    SpaceHead(s, Word(s), [], stale, n);
    SpaceEnd(Word(s), stale, n, tail);
  }

  lemma SpaceInner(s: Text, stale: Text, n: nat, ts: seq<Text>, tail: Words)
    requires s != [] && QuoteFree(s) && s[|s| - 1] == SPACE && Rest(s) != []
    requires n + 1 != TOKENS && SplitFrom(Rest(s) + stale, |Rest(s)|, n + 1) == Prepend(ts, tail)
    ensures SplitFrom(s + stale, |s|, n) == Prepend([Word(s)] + ts, tail)
  {
    SpaceRest(s);
    SpaceHead(s, Word(s), Rest(s), stale, n);
    SpaceMore(Word(s), ts, Rest(s) + stale, |Rest(s)|, n, tail);
  }

  /** Behind a space the stale bytes are a word of their own, all of it past the limit. */
  lemma {:induction false} SpaceStale(s: Text, stale: Text, n: nat, m: nat, tail: Words)
    requires s != [] && QuoteFree(s) && s[|s| - 1] == SPACE
    requires m == n + |FieldsOf(s)| <= TOKENS && tail == SplitNext(stale, 0, m)
    ensures SplitFrom(s + stale, |s|, n) == Prepend(FieldsOf(s), tail)
    decreases |s|
  {
    if Rest(s) == [] {
      SpaceLast(s, stale, n, tail);
    } else {
      SpaceRest(s);
      FieldsMore(s, Rest(s));
      SpaceStale(Rest(s), stale, n + 1, m, tail);
      SpaceInner(s, stale, n, FieldsOf(Rest(s)), tail);
    }
  }

  /** A word in front of a space. */
  lemma SplitBeforeSpace(w: Text, rest: Text, limit: int, n: nat)
    requires SpaceFree(w) && QuoteFree(w) && |w| <= limit
    ensures SplitFrom(w + [SPACE] + rest, limit, n) == Cons(w, SplitNext(rest, limit - |w| - 1, n + 1))
  {
    TakeBeforeSpace(w, rest, limit);
  }

  lemma TakeBeforeSpace(w: Text, rest: Text, limit: int)
    requires SpaceFree(w) && QuoteFree(w) && (w == [] || |w| <= limit)
    ensures TakeOne(w + [SPACE] + rest, limit) == Taken(w, rest, |w| + 1)
  {
    var s := w + [SPACE] + rest;
    WordIs(s, w);
    CutQuoteFree(w);
    assert !IsQuote(s[0]);
    assert s[|w| + 1..] == rest;
  }

  lemma ConsPrepend(w: Text, ts: seq<Text>, rest: Words)
    ensures Cons(w, Prepend(ts, rest)) == Prepend([w] + ts, rest)
    ensures Prepend([], rest) == rest
  {
    if rest.Words? {
      assert [w] + (ts + rest.tokens) == [w] + ts + rest.tokens;
      assert [] + rest.tokens == rest.tokens;
    }
  }

  /** Harmless after the line `s` of `n` tokens, whether or not it ends in a space. */
  predicate HarmlessAfter(s: Text, stale: Text, n: nat)
    requires s != []
  {
    if s[|s| - 1] == SPACE then stale == [] || (stale[0] != SPACE && n < TOKENS) else Harmless(stale, n)
  }

  lemma HarmlessAfterSpace(ts: seq<Text>, stale: Text)
    requires |ts| <= TOKENS && QuoteFree(stale)
    ensures Prepend(ts, SplitNext(stale, 0, |ts|)) == Words(ts) <==> stale == [] || (stale[0] != SPACE && |ts| < TOKENS)
  {
    PrependNothing(ts, SplitNext(stale, 0, |ts|));
    if stale != [] {
      SplitWord(stale, 0, |ts|);
    }
  }

  /**
   A quote-free command of at most `TOKENS` tokens, followed in the buffer by the stale bytes
   of a longer line: it is split as typed exactly when those bytes are harmless. When neither
   it ends nor they start with a space, it loses its last token.
   */
  lemma SplitWithStale(s: Text, stale: Text)
    requires s != [] && QuoteFree(s) && QuoteFree(stale)
    requires Split(s, |s|).Words?
    ensures var ts := Split(s, |s|).tokens;
            && (Split(s + stale, |s|) == Split(s, |s|) <==> HarmlessAfter(s, stale, |ts|))
            && (s[|s| - 1] != SPACE && stale != [] && stale[0] != SPACE ==>
                  Split(s + stale, |s|) == Words(ts[..|ts| - 1]))
  {
    SplitFields(s, 0);
    if s[|s| - 1] == SPACE {
      var n := |FieldsOf(s)|;
      SpaceStale(s, stale, 0, n, SplitNext(stale, 0, n));
      HarmlessAfterSpace(FieldsOf(s), stale);
    } else {
      StaleFields(s, stale, 0);
      HarmlessStale(FieldsOf(s), stale);
    }
  }
}
