/**
 What quotes are for: a quoted word is one token, spaces included. The splitter keeps that
 promise for the last word of a line only; after any other it adds an empty token. A quote
 inside a bare word ends its token.
 */
module Quoting {
  import opened Bytes
  import opened Splitter

  const QUOTE: byte := 34

  /** A word of a command line: written as it is, or between quotes. */
  datatype Item = Bare(text: Text) | Quoted(text: Text)

  predicate Plain(s: Text) {
    forall i :: 0 <= i < |s| ==> !IsQuote(s[i]) && s[i] != BACKSLASH
  }

  /** No quotes but behind a backslash, and no backslash at the end. */
  predicate Guarded(s: Text) {
    if s == [] then true
    else if s[0] == BACKSLASH then |s| > 1 && Guarded(if IsQuote(s[1]) then s[2..] else s[1..])
    else !IsQuote(s[0]) && Guarded(s[1..])
  }

  lemma {:induction false} PlainGuarded(s: Text)
    requires Plain(s)
    ensures Guarded(s)
  {
    if s != [] {
      PlainGuarded(s[1..]);
    }
  }

  /** A bare word is not empty, has no space and does not start with a quote; a quoted one is any guarded text. */
  predicate Proper(item: Item) {
    match item
    case Bare(w) => w != [] && SpaceFree(w) && !IsQuote(w[0])
    case Quoted(q) => Guarded(q)
  }

  predicate AllProper(items: seq<Item>) {
    forall i :: 0 <= i < |items| ==> Proper(items[i])
  }

  function Form(item: Item): Text {
    match item
    case Bare(w) => w
    case Quoted(q) => [QUOTE] + q + [QUOTE]
  }

  /** The words with one space between each two. */
  function Line(items: seq<Item>): Text {
    if items == [] then []
    else if |items| == 1 then Form(items[0])
    else Form(items[0]) + [SPACE] + Line(items[1..])
  }

  /** The tokens the line is meant to have. */
  function Meant(items: seq<Item>): (ts: seq<Text>)
    ensures |ts| == |items| && forall i :: 0 <= i < |items| ==> ts[i] == items[i].text
  {
    seq(|items|, i requires 0 <= i < |items| => items[i].text)
  }

  /** What a word becomes: of a bare one the bytes before its first quote. */
  function Token(item: Item): Text {
    match item
    case Bare(w) => Cut(w)
    case Quoted(q) => q
  }

  /** The tokens of a word that is not the last: the space after a closing quote starts an empty one. */
  function Adds(item: Item): seq<Text> {
    if item.Quoted? then [item.text, []] else [Token(item)]
  }

  /** The tokens it has. */
  function Tokens(items: seq<Item>): seq<Text> {
    if items == [] then []
    else if |items| == 1 then [Token(items[0])]
    else Adds(items[0]) + Tokens(items[1..])
  }

  lemma {:induction false} QuoteEndsFrom(s: Text, q: Text, i: nat, limit: int, left: Text)
    requires 1 <= i <= |q| + 1 < |s| && |q| + 1 < limit
    requires s[1..|q| + 1] == q && IsQuote(s[|q| + 1]) && left == q[i - 1..]
    ensures QuoteEnd(s, i, limit) == Closed(|q| + 1) <==> Guarded(left)
    decreases |q| + 1 - i
  {
    if i <= |q| {
      assert s[i] == s[1..|q| + 1][i - 1] == left[0];
      if i < |q| {
        assert s[i + 1] == s[1..|q| + 1][i] == left[1];
        QuoteEndsFrom(s, q, i + 1, limit, left[1..]);
        if s[i] == BACKSLASH && IsQuote(s[i + 1]) {
          QuoteEndsFrom(s, q, i + 2, limit, left[2..]);
        }
      } else {
        assert |left| == 1 && left[1..] == [] && Guarded(left[1..]);
        QuoteEndsFrom(s, q, i + 1, limit, left[1..]);
      }
    }
  }

  /** The quote behind a text closes it exactly when the text is guarded. */
  lemma QuoteClosesGuarded(q: Text, rest: Text, limit: int)
    requires |q| + 1 < limit
    ensures QuoteEnd(Form(Quoted(q)) + rest, 1, limit) == Closed(|q| + 1) <==> Guarded(q)
  {
    var s := Form(Quoted(q)) + rest;
    assert s[1..|q| + 1] == q && q[0..] == q;
    QuoteEndsFrom(s, q, 1, limit, q);
  }

  lemma TakeClosed(s: Text, q: Text, rest: Text, limit: int)
    requires s == [QUOTE] + q + [QUOTE] + rest && QuoteEnd(s, 1, limit) == Closed(|q| + 1)
    ensures TakeOne(s, limit) == Taken(q, rest, |q| + 2)
  {
    assert s[1..|q| + 1] == q && s[|q| + 2..] == rest;
  }

  /** A quoted word at the front of a line. */
  lemma SplitQuoted(q: Text, rest: Text, limit: int, n: nat)
    requires Guarded(q) && |q| + 1 < limit
    ensures SplitFrom(Form(Quoted(q)) + rest, limit, n) == Cons(q, SplitNext(rest, limit - |q| - 2, n + 1))
  {
    QuoteClosesGuarded(q, rest, limit);
    TakeClosed(Form(Quoted(q)) + rest, q, rest, limit);
  }

  /** A space at the front of a line. */
  lemma SplitSpace(rest: Text, limit: nat, n: nat)
    ensures SplitFrom([SPACE] + rest, limit, n) == Cons([], SplitNext(rest, limit - 1, n + 1))
  {
    assert [] + [SPACE] + rest == [SPACE] + rest;
    SplitBeforeSpace([], rest, limit, n);
  }

  /** A space in front of a line that is split into `ts`. */
  lemma SpaceCounted(rest: Text, n: nat, ts: seq<Text>)
    requires rest != [] && ts != [] && n < TOKENS
    requires n + 1 < TOKENS ==> SplitFrom(rest, |rest|, n + 1) == Counted(ts, n + 1)
    ensures SplitFrom([SPACE] + rest, |rest| + 1, n) == Counted([[]] + ts, n)
  {
    SplitSpace(rest, |rest| + 1, n);
    NextCounted(rest, n + 1, ts);
    ConsCounted([], ts, n);
  }

  /** However many tokens came before, the line is split into `ts`, or has too many. */
  ghost predicate Splits(line: Text, ts: seq<Text>) {
    line != [] && ts != [] && forall n: nat :: n < TOKENS ==> SplitFrom(line, |line|, n) == Counted(ts, n)
  }

  /** A bare word in front of a space. */
  lemma SplitBare(w: Text, rest: Text, limit: int, n: nat)
    requires Proper(Bare(w)) && |w| <= limit
    ensures SplitFrom(w + [SPACE] + rest, limit, n) == Cons(Cut(w), SplitNext(rest, limit - |w| - 1, n + 1))
  {
    var s := w + [SPACE] + rest;
    WordIs(s, w);
    assert s[0] == w[0] && s[|w| + 1..] == rest;
    assert TakeOne(s, limit) == Taken(Cut(w), rest, |w| + 1);
  }

  lemma BareFirst(w: Text, rest: Text, ts: seq<Text>, n: nat)
    requires Proper(Bare(w)) && Splits(rest, ts) && n < TOKENS
    ensures var line := w + [SPACE] + rest;
            SplitFrom(line, |line|, n) == Counted([Cut(w)] + ts, n)
  {
    SplitBare(w, rest, |w + [SPACE] + rest|, n);
    NextCounted(rest, n + 1, ts);
    ConsCounted(Cut(w), ts, n);
  }

  lemma QuotedFirst(q: Text, rest: Text, ts: seq<Text>, n: nat, line: Text, after: Text)
    requires Splits(rest, ts) && n < TOKENS && after == [SPACE] + rest
    requires SplitFrom(line, |line|, n) == Cons(q, SplitNext(after, |after|, n + 1))
    ensures SplitFrom(line, |line|, n) == Counted([q] + ([[]] + ts), n)
  {
    if n + 1 < TOKENS {
      SpaceCounted(rest, n + 1, ts);
    }
    NextCounted(after, n + 1, [[]] + ts);
    ConsCounted(q, [[]] + ts, n);
  }

  lemma SplitFirst(item: Item, rest: Text, ts: seq<Text>)
    requires Proper(item) && Splits(rest, ts)
    ensures Splits(Form(item) + [SPACE] + rest, Adds(item) + ts)
  {
    var line := Form(item) + [SPACE] + rest;
    match item {
      case Bare(w) =>
        forall n: nat | n < TOKENS ensures SplitFrom(line, |line|, n) == Counted([Cut(w)] + ts, n) {
          BareFirst(w, rest, ts, n);
        }
      case Quoted(q) =>
        assert line == Form(item) + ([SPACE] + rest) && Adds(item) + ts == [q] + ([[]] + ts);
        forall n: nat | n < TOKENS ensures SplitFrom(line, |line|, n) == Counted([q] + ([[]] + ts), n) {
          SplitQuoted(q, [SPACE] + rest, |line|, n);
          QuotedFirst(q, rest, ts, n, line, [SPACE] + rest);
        }
    }
  }

  lemma SplitLast(item: Item)
    requires Proper(item)
    ensures Splits(Form(item), [Token(item)])
  {
    forall n: nat | n < TOKENS ensures SplitFrom(Form(item), |Form(item)|, n) == Counted([Token(item)], n) {
      SplitLastItem(item, n);
    }
  }

  lemma {:induction false} SplitItems(items: seq<Item>)
    requires items != [] && AllProper(items)
    ensures Splits(Line(items), Tokens(items))
    decreases |items|
  {
    assert Proper(items[0]);
    if |items| == 1 {
      SplitLast(items[0]);
      assert Tokens(items) == [Token(items[0])];
    } else {
      SplitItems(items[1..]);
      SplitFirst(items[0], Line(items[1..]), Tokens(items[1..]));
    }
  }

  lemma SplitLastItem(item: Item, n: nat)
    requires Proper(item) && n < TOKENS
    ensures SplitFrom(Form(item), |Form(item)|, n) == Words([Token(item)])
  {
    var s := Form(item);
    match item {
      case Bare(w) =>
        WordIs(w, w);
      case Quoted(q) =>
        assert s + [] == s;
        SplitQuoted(q, [], |s|, n);
    }
  }

  /** The word becomes what is meant: it is the last one or bare, and a bare one has no quote in it. */
  predicate Kept(items: seq<Item>, i: nat)
    requires i < |items|
  {
    match items[i]
    case Bare(w) => QuoteFree(w)
    case Quoted(q) => i == |items| - 1
  }

  lemma CutWhole(w: Text)
    ensures Cut(w) == w <==> QuoteFree(w)
  {
    if QuoteFree(w) {
      CutQuoteFree(w);
    }
  }

  lemma {:induction false} TokensCount(items: seq<Item>)
    ensures |Tokens(items)| >= |items|
    ensures |Tokens(items)| == |items| <==> forall i :: 0 <= i < |items| - 1 ==> items[i].Bare?
    decreases |items|
  {
    if |items| > 1 {
      var later := items[1..];
      TokensCount(later);
      assert forall i :: 0 <= i < |later| ==> later[i] == items[i + 1];
    }
  }

  lemma KeptMore(items: seq<Item>, later: seq<Item>)
    requires |items| > 1 && later == items[1..]
    ensures (forall i :: 0 <= i < |items| ==> Kept(items, i))
       <==> Kept(items, 0) && forall i :: 0 <= i < |later| ==> Kept(later, i)
  {
    assert forall i :: 0 <= i < |later| ==> (Kept(later, i) <==> Kept(items, i + 1));
    if Kept(items, 0) && forall i :: 0 <= i < |later| ==> Kept(later, i) {
      forall i | 0 <= i < |items| ensures Kept(items, i) {
        if i > 0 {
          assert Kept(later, i - 1);
        }
      }
    }
  }

  lemma SameHeads(a: Text, b: Text, s: seq<Text>, t: seq<Text>)
    ensures [a] + s == [b] + t <==> a == b && s == t
  {
    if [a] + s == [b] + t {
      assert a == ([a] + s)[0] && b == ([b] + t)[0] && s == ([a] + s)[1..] && t == ([b] + t)[1..];
    }
  }

  lemma {:induction false} TokensMeant(items: seq<Item>)
    ensures Tokens(items) == Meant(items) <==> forall i :: 0 <= i < |items| ==> Kept(items, i)
    decreases |items|
  {
    TokensCount(items);
    if |items| == 1 {
      CutWhole(items[0].text);
      assert Meant(items) == [items[0].text];
      assert Tokens(items)[0] == Token(items[0]);
      assert (forall i :: 0 <= i < |items| ==> Kept(items, i)) <==> Kept(items, 0);
    } else if |items| > 1 {
      var later := items[1..];
      KeptMore(items, later);
      if items[0].Bare? {
        TokensMeant(later);
        CutWhole(items[0].text);
        assert Meant(items) == [items[0].text] + Meant(later);
        SameHeads(Cut(items[0].text), items[0].text, Tokens(later), Meant(later));
      }
    }
  }

  /**
   A line of bare and quoted words is split into the words it is made of exactly when there
   are at most `TOKENS` of them, none but the last is quoted and no bare one has a quote in it.
   */
  lemma QuotesProtectLastOnly(items: seq<Item>)
    requires items != [] && AllProper(items)
    ensures var line := Line(items);
            Split(line, |line|) == Words(Meant(items)) <==>
            |items| <= TOKENS && forall i :: 0 <= i < |items| ==> Kept(items, i)
  {
    SplitItems(items);
    TokensCount(items);
    TokensMeant(items);
  }

  lemma TokensMore(item: Item, items: seq<Item>)
    requires items != []
    ensures Tokens([item] + items) == Adds(item) + Tokens(items)
  {
    assert ([item] + items)[1..] == items;
  }

  lemma FourTokens(a: Text, b: Text, c: Text, d: Text)
    ensures Tokens([Bare(a), Bare(b), Quoted(c), Quoted(d)]) == [Cut(a), Cut(b), c, [], d]
  {
    assert [Bare(b), Quoted(c), Quoted(d)] == [Bare(b)] + ([Quoted(c)] + [Quoted(d)]);
    TokensMore(Quoted(c), [Quoted(d)]);
    TokensMore(Bare(b), [Quoted(c)] + [Quoted(d)]);
    TokensMore(Bare(a), [Bare(b), Quoted(c), Quoted(d)]);
    assert [Bare(a), Bare(b), Quoted(c), Quoted(d)] == [Bare(a)] + [Bare(b), Quoted(c), Quoted(d)];
    assert [Cut(a)] + ([Cut(b)] + ([c, []] + [d])) == [Cut(a), Cut(b), c, [], d];
  }

  lemma FourArguments(a: Text, b: Text, c: Text, d: Text)
    requires Proper(Bare(a)) && Proper(Bare(b)) && QuoteFree(a) && QuoteFree(b) && Guarded(c) && Guarded(d)
    ensures var line := Line([Bare(a), Bare(b), Quoted(c), Quoted(d)]);
            Split(line, |line|) == Words([a, b, c, [], d])
  {
    SplitItems([Bare(a), Bare(b), Quoted(c), Quoted(d)]);
    FourTokens(a, b, c, d);
    CutWhole(a);
    CutWhole(b);
  }

  lemma {:induction false} NeverClosed(s: Text, i: nat, left: Text)
    requires 1 <= i <= |s| && left == s[i..] && Guarded(left)
    ensures QuoteEnd(s, i, |s|) == Unclosed
    decreases |s| - i
  {
    if i < |s| {
      assert s[i] == left[0];
      if s[i] != BACKSLASH {
        NeverClosed(s, i + 1, left[1..]);
      } else {
        assert s[i + 1] == left[1];
        if IsQuote(s[i + 1]) {
          NeverClosed(s, i + 2, left[2..]);
        } else {
          NeverClosed(s, i + 1, left[1..]);
        }
      }
    }
  }

  lemma SplitUnclosed(s: Text, text: Text)
    requires s != [] && IsQuote(s[0]) && text == s[1..] && QuoteEnd(s, 1, |s|) == Unclosed
    ensures Split(s, |s|) == Words([text])
  {
    assert TakeOne(s, |s|) == Taken(text, [], |s|);
    assert SplitNext([], 0, 1) == Words([]) && [text] + [] == [text];
  }

  /** A quote that is not closed: everything after it is one token. */
  lemma UnclosedQuote(quote: byte, text: Text)
    requires IsQuote(quote) && Guarded(text)
    ensures Split([quote] + text, |[quote] + text|) == Words([text])
  {
    var s := [quote] + text;
    assert s[1..] == text;
    NeverClosed(s, 1, text);
    SplitUnclosed(s, text);
  }

  predicate Letters(s: string) {
    s != "" && forall i :: 0 <= i < |s| ==> s[i] == ' ' || ('A' <= s[i] <= 'z' && s[i] != '\\')
  }

  lemma LettersProper(s: string)
    requires Letters(s)
    ensures Guarded(Ascii(s)) && QuoteFree(Ascii(s)) && (SpaceFree(Ascii(s)) ==> Proper(Bare(Ascii(s))))
  {
    assert Plain(Ascii(s));
    PlainGuarded(Ascii(s));
  }

  lemma FourInLetters(a: string, b: string, c: string, d: string)
    requires Letters(a) && Letters(b) && Letters(c) && Letters(d) && ' ' !in a && ' ' !in b
    ensures var line := Line([Bare(Ascii(a)), Bare(Ascii(b)), Quoted(Ascii(c)), Quoted(Ascii(d))]);
            Split(line, |line|) == Words([Ascii(a), Ascii(b), Ascii(c), [], Ascii(d)])
  {
    LettersProper(a);
    LettersProper(b);
    LettersProper(c);
    LettersProper(d);
    FourArguments(Ascii(a), Ascii(b), Ascii(c), Ascii(d));
  }

  /** The documented example of two quoted arguments gives five tokens, not four. */
  lemma TwoQuotedArguments()
    ensures var command, part, home, secret := Ascii("set"), Ascii("wifi"), Ascii("Home Net"), Ascii("secret password");
            var line := Line([Bare(command), Bare(part), Quoted(home), Quoted(secret)]);
            Split(line, |line|) == Words([command, part, home, [], secret])
  {
    FourInLetters("set", "wifi", "Home Net", "secret password");
  }
}
