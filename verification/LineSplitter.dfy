/** The splitter as it runs: it scans the line buffer and overwrites the ends of the tokens. */
module LineSplitter {
  import opened Bytes
  import opened CStrings
  import opened Splitter

  // ---------------------------------------------------------------------------
  // Unquoted words
  // ---------------------------------------------------------------------------

  /** `w` is what is before the first space of `s`. */
  ghost predicate IsWord(s: Text, w: Text) {
    && |w| <= |s| && (|w| < |s| ==> s[|w|] == SPACE)
    && forall k :: 0 <= k < |w| ==> w[k] == s[k] && w[k] != SPACE
  }

  /** `c` is what is before the first quote of `w`. */
  ghost predicate IsCut(w: Text, c: Text) {
    && |c| <= |w| && (|c| < |w| ==> IsQuote(w[|c|]))
    && forall k :: 0 <= k < |c| ==> c[k] == w[k] && !IsQuote(w[k])
  }

  lemma WordIsWord(s: Text)
    ensures IsWord(s, Word(s)) && IsCut(Word(s), Cut(Word(s)))
  {
  }

  /** `n` bytes of the word `w` at `pos`, with a NUL for every quote. */
  ghost predicate Nulled(buf: Text, pos: nat, w: Text, n: nat) {
    && pos + |w| <= |buf| && n <= |w|
    && forall k :: 0 <= k < n ==> buf[pos + k] == if IsQuote(w[k]) then NUL else w[k]
  }

  lemma WordByte(buf: Text, pos: nat, rest: Text, w: Text, k: nat)
    requires StringAt(buf, pos, rest) && IsWord(rest, w) && k <= |w|
    ensures pos + k < |buf|
    ensures if k < |w| then buf[pos + k] == w[k] && w[k] != SPACE && w[k] != NUL
            else buf[pos + k] == if w == rest then NUL else SPACE
  {
    StringByte(buf, pos, rest, k);
    if k == |w| {
      assert w == rest <==> |w| == |rest|;
    }
  }

  /**
   Scans the unquoted word at `pos`, overwriting every quote in it. `past` when the scan
   meets a byte of the word at or after `limit`.
   */
  method ScanWord(line: array<byte>, pos: nat, limit: nat, ghost rest: Text, ghost w: Text)
    returns (next: nat, past: bool)
    requires StringAt(line[..], pos, rest) && IsWord(rest, w)
    modifies line
    ensures past <==> w != [] && limit - pos < |w|
    ensures pos <= next <= pos + |w| && (!past ==> next == pos + |w|)
    ensures Nulled(line[..], pos, w, next - pos)
    ensures SameOutside(old(line[..]), line[..], pos, next)
  {
    next := pos;
    ghost var buf := line[..];
    WordByte(buf, pos, rest, w, 0);
    while line[next] != SPACE && line[next] != NUL
      invariant pos <= next <= pos + |w| < line.Length
      invariant pos < next ==> next <= limit
      invariant Nulled(line[..], pos, w, next - pos)
      invariant SameOutside(buf, line[..], pos, next)
      invariant line[next] == SPACE || line[next] == NUL <==> next == pos + |w|
      decreases pos + |w| - next
    {
      if next >= limit {
        return next, true;
      }
      WordByte(buf, pos, rest, w, next - pos);
      WordByte(buf, pos, rest, w, next - pos + 1);
      if IsQuote(line[next]) {
        line[next] := NUL;
      }
      next := next + 1;
    }
    past := false;
  }

  /** A token at `start`, and `left` at `next` behind it. */
  ghost predicate Token(buf: Text, start: nat, token: Text, next: nat, left: Text) {
    && StringAt(buf, start, token) && StringAt(buf, next, left)
    && start + |token| < if left == [] then next + 1 else next
  }

  lemma CutString(buf: Text, pos: nat, w: Text, c: Text)
    requires Nulled(buf, pos, w, |w|) && IsCut(w, c) && NulFree(w)
    requires pos + |w| < |buf| && buf[pos + |w|] == NUL
    ensures StringAt(buf, pos, c)
  {
    forall k | 0 <= k < |c| ensures buf[pos + k] == c[k] && c[k] != NUL {
      assert c[k] == w[k];
    }
    if |c| < |w| {
      assert IsQuote(w[|c|]);
    }
  }

  /** The last word of the line, scanned. */
  lemma LastWord(buf: Text, scanned: Text, pos: nat, w: Text, c: Text)
    requires StringAt(buf, pos, w) && IsCut(w, c)
    requires Nulled(scanned, pos, w, |w|) && SameOutside(buf, scanned, pos, pos + |w|)
    ensures Token(scanned, pos, c, pos + |w|, [])
  {
    assert scanned[pos + |w|] == buf[pos + |w|];
    CutString(scanned, pos, w, c);
  }

  /** A word before a space, scanned, and the space overwritten. */
  lemma InnerWord(buf: Text, scanned: Text, pos: nat, rest: Text, w: Text, c: Text)
    requires StringAt(buf, pos, rest) && IsWord(rest, w) && |w| < |rest| && IsCut(w, c)
    requires Nulled(scanned, pos, w, |w|) && SameOutside(buf, scanned, pos, pos + |w|)
    ensures pos + |w| < |scanned|
    ensures Token(scanned[pos + |w| := NUL], pos, c, pos + |w| + 1, rest[|w| + 1..])
  {
    var buf' := scanned[pos + |w| := NUL];
    forall k | 0 <= k < |w| ensures w[k] != NUL {
      assert w[k] == rest[k];
    }
    CutString(buf', pos, w, c);
    StringTail(buf, pos, rest, |w| + 1);
    StringKept(buf, buf', pos + |w| + 1, rest[|w| + 1..]);
  }

  /** Ends the unquoted word scanned from `pos` to `at`, and steps over the space after it. */
  method EndWord(line: array<byte>, pos: nat, at: nat, ghost buf: Text, ghost rest: Text, ghost w: Text, ghost c: Text)
    returns (next: nat)
    requires StringAt(buf, pos, rest) && IsWord(rest, w) && IsCut(w, c) && at == pos + |w| < line.Length
    requires Nulled(line[..], pos, w, |w|) && SameOutside(buf, line[..], pos, at)
    modifies line
    ensures SameBefore(buf, line[..], pos)
    ensures w == rest ==> next == at && Token(line[..], pos, c, next, [])
    ensures w != rest ==> next == at + 1 && Token(line[..], pos, c, next, rest[|w| + 1..])
  {
    ghost var scanned := line[..];
    next := at;
    WordByte(buf, pos, rest, w, |w|);
    assert line[next] == buf[pos + |w|];
    if line[next] != NUL {
      InnerWord(buf, scanned, pos, rest, w, c);
      line[next] := NUL;
      assert line[..] == scanned[next := NUL];
      next := next + 1;
    } else {
      LastWord(buf, scanned, pos, w, c);
    }
  }

  /** Finishes the unquoted word at `pos`. */
  method TakeWord(line: array<byte>, pos: nat, limit: nat, ghost rest: Text, ghost w: Text, ghost c: Text)
    returns (next: nat, past: bool)
    requires StringAt(line[..], pos, rest) && IsWord(rest, w) && IsCut(w, c)
    modifies line
    ensures SameBefore(old(line[..]), line[..], pos)
    ensures past <==> w != [] && limit - pos < |w|
    ensures !past && w == rest ==> next == pos + |w| && Token(line[..], pos, c, next, [])
    ensures !past && w != rest ==> next == pos + |w| + 1 && Token(line[..], pos, c, next, rest[|w| + 1..])
  {
    ghost var buf := line[..];
    WordByte(buf, pos, rest, w, |w|);
    next, past := ScanWord(line, pos, limit, rest, w);
    if !past {
      next := EndWord(line, pos, next, buf, rest, w, c);
    }
  }

  // ---------------------------------------------------------------------------
  // Quoted words
  // ---------------------------------------------------------------------------

  /** Scans the quoted word that opens at `open`, and overwrites the quote that closes it. */
  method ScanQuoted(line: array<byte>, open: nat, limit: nat, ghost rest: Text)
    returns (next: nat, past: bool)
    requires StringAt(line[..], open, rest) && rest != []
    modifies line
    ensures var end := QuoteEnd(rest, 1, limit - open);
            && (past <==> end.PastLimit?)
            && (end.Closed? ==> next == open + end.at + 1 && line[..] == old(line[..])[open + end.at := NUL])
            && (end.Unclosed? ==> next == open + |rest|)
            && (!end.Closed? ==> line[..] == old(line[..]))
  {
    next := open + 1;
    ghost var end := QuoteEnd(rest, 1, limit - open);
    StringByte(line[..], open, rest, 1);
    while line[next] != NUL
      invariant open < next <= open + |rest| < line.Length
      invariant line[..] == old(line[..])
      invariant line[next] == NUL <==> next == open + |rest|
      invariant QuoteEnd(rest, next - open, limit - open) == end
      decreases open + |rest| - next
    {
      StringByte(line[..], open, rest, next - open);
      StringByte(line[..], open, rest, next - open + 1);
      if next >= limit {
        return next, true;
      }
      if line[next] == BACKSLASH {
        next := next + 1;
        if IsQuote(line[next]) {
          StringByte(line[..], open, rest, next - open + 1);
          next := next + 1;
        }
      } else if IsQuote(line[next]) {
        line[next] := NUL;
        return next + 1, false;
      } else {
        next := next + 1;
      }
    }
    past := false;
  }

  /** The quoted word that opens `rest`, closed by the quote at `q`. */
  lemma ClosedWord(buf: Text, pos: nat, rest: Text, q: nat)
    requires StringAt(buf, pos, rest) && 1 <= q < |rest|
    ensures pos + q < |buf|
    ensures Token(buf[pos + q := NUL], pos + 1, rest[1..q], pos + q + 1, rest[q + 1..])
  {
    var tail := rest[1..];
    StringTail(buf, pos, rest, 1);
    StringFront(buf, pos + 1, tail, q - 1);
    assert tail[..q - 1] == rest[1..q] && tail[q..] == rest[q + 1..];
  }

  /** The quoted word that opens `rest` and is never closed. */
  lemma UnclosedWord(buf: Text, pos: nat, rest: Text)
    requires StringAt(buf, pos, rest) && rest != []
    ensures Token(buf, pos + 1, rest[1..], pos + |rest|, [])
  {
    StringTail(buf, pos, rest, 1);
    StringTail(buf, pos, rest, |rest|);
    assert rest[|rest|..] == [];
  }

  // ---------------------------------------------------------------------------
  // Tokens
  // ---------------------------------------------------------------------------

  /** Takes the quoted token that starts at `pos`. */
  method TakeQuoted(line: array<byte>, pos: nat, limit: nat, ghost rest: Text)
    returns (next: nat, past: bool, ghost token: Text, ghost left: Text)
    requires StringAt(line[..], pos, rest) && rest != [] && IsQuote(rest[0])
    modifies line
    ensures SameBefore(old(line[..]), line[..], pos)
    ensures past ==> TakeOne(rest, limit - pos) == Past
    ensures !past ==> next >= pos && TakeOne(rest, limit - pos) == Taken(token, left, next - pos)
    ensures !past ==> Token(line[..], pos + 1, token, next, left)
  {
    token, left := [], [];
    ghost var end, buf := QuoteEnd(rest, 1, limit - pos), line[..];
    next, past := ScanQuoted(line, pos, limit, rest);
    if end.Closed? {
      token, left := rest[1..end.at], rest[end.at + 1..];
      ClosedWord(buf, pos, rest, end.at);
    } else if end.Unclosed? {
      token := rest[1..];
      UnclosedWord(buf, pos, rest);
    }
  }

  lemma TakeOneWord(s: Text, w: Text, limit: int)
    requires s != [] && !IsQuote(s[0]) && w == Word(s)
    ensures w != [] && limit < |w| ==> TakeOne(s, limit) == Past
    ensures !(w != [] && limit < |w|) && w == s ==> TakeOne(s, limit) == Taken(Cut(w), [], |w|)
    ensures !(w != [] && limit < |w|) && w != s ==> TakeOne(s, limit) == Taken(Cut(w), s[|w| + 1..], |w| + 1)
  {
  }

  /** Takes the token that starts at `pos`. */
  method TakeToken(line: array<byte>, pos: nat, limit: nat, ghost rest: Text)
    returns (next: nat, past: bool, ghost token: Text, ghost left: Text)
    requires StringAt(line[..], pos, rest) && rest != []
    modifies line
    ensures SameBefore(old(line[..]), line[..], pos)
    ensures past ==> TakeOne(rest, limit - pos) == Past
    ensures !past ==> next >= pos && TakeOne(rest, limit - pos) == Taken(token, left, next - pos)
    ensures !past ==> Token(line[..], if IsQuote(rest[0]) then pos + 1 else pos, token, next, left)
  {
    StringByte(line[..], pos, rest, 0);
    if IsQuote(line[pos]) {
      next, past, token, left := TakeQuoted(line, pos, limit, rest);
    } else {
      ghost var w, c := Word(rest), Cut(Word(rest));
      WordIsWord(rest);
      TakeOneWord(rest, w, limit - pos);
      next, past := TakeWord(line, pos, limit, rest, w, c);
      token, left := c, if w == rest then [] else rest[|w| + 1..];
    }
  }

  /** The tokens found so far: each is a C string that ends before `pos`. */
  ghost predicate Found(buf: Text, starts: seq<nat>, ts: seq<Text>, pos: nat) {
    && |starts| == |ts|
    && forall k :: 0 <= k < |ts| ==> StringAt(buf, starts[k], ts[k]) && starts[k] + |ts[k]| < pos
  }

  /** A change past the tokens leaves them. */
  lemma FoundKept(buf: Text, buf': Text, starts: seq<nat>, ts: seq<Text>, pos: nat)
    requires Found(buf, starts, ts, pos) && pos <= |buf| && SameBefore(buf, buf', pos)
    ensures Found(buf', starts, ts, pos)
  {
    forall k | 0 <= k < |ts| ensures StringAt(buf', starts[k], ts[k]) {
      StringKept(buf, buf', starts[k], ts[k]);
    }
  }

  /** One more token. */
  lemma FoundStep(buf: Text, buf': Text, starts: seq<nat>, ts: seq<Text>, pos: nat,
                  start: nat, token: Text, next: nat, left: Text)
    requires Found(buf, starts, ts, pos) && pos <= |buf| && SameBefore(buf, buf', pos)
    requires Token(buf', start, token, next, left) && pos <= next
    ensures Found(buf', starts + [start], ts + [token], if left == [] then next + 1 else next)
  {
    FoundKept(buf, buf', starts, ts, pos);
  }

  lemma PrependCons(ts: seq<Text>, w: Text, rest: Words)
    ensures Prepend(ts, Cons(w, rest)) == Prepend(ts + [w], rest)
  {
    if rest.Words? {
      assert ts + ([w] + rest.tokens) == ts + [w] + rest.tokens;
    }
  }

  /** The words after position `pos`, where `rest` is left of the line. */
  ghost predicate Remaining(words: Words, limit: nat, ts: seq<Text>, pos: nat, rest: Text) {
    words == Prepend(ts, SplitFrom(rest, limit - pos, |ts|))
  }

  lemma RemainingEnds(words: Words, limit: nat, ts: seq<Text>, pos: nat, rest: Text)
    requires Remaining(words, limit, ts, pos, rest)
    requires rest == [] || TakeOne(rest, limit - pos) == Past
    ensures words == Words(ts)
  {
    assert ts + [] == ts;
  }

  lemma SplitTaken(s: Text, limit: int, n: nat, token: Text, left: Text, used: nat, after: int)
    requires s != [] && TakeOne(s, limit) == Taken(token, left, used) && after == limit - used
    ensures SplitFrom(s, limit, n) == Cons(token, SplitNext(left, after, n + 1))
  {
  }

  lemma RemainingStep(words: Words, limit: nat, ts: seq<Text>, pos: nat, rest: Text, token: Text, left: Text, next: nat)
    requires Remaining(words, limit, ts, pos, rest) && rest != [] && pos <= next
    requires TakeOne(rest, limit - pos) == Taken(token, left, next - pos)
    ensures |ts| + 1 == TOKENS && left != [] ==> words == TooMany
    ensures !(|ts| + 1 == TOKENS && left != []) ==> Remaining(words, limit, ts + [token], next, left)
  {
    var n, after := |ts + [token]|, limit - next;
    assert n == |ts| + 1;
    SplitTaken(rest, limit - pos, |ts|, token, left, next - pos, after);
    PrependCons(ts, token, SplitNext(left, after, n));
    if !(n == TOKENS && left != []) {
      NextWithRoom(left, after, n);
    }
  }

  /** Finds the next token: its start goes to `starts` and a NUL ends it. */
  method NextToken(line: array<byte>, starts: array<nat>, num: nat, pos: nat, limit: nat,
                   ghost rest: Text, ghost ts: seq<Text>)
    returns (next: nat, past: bool, ghost token: Text, ghost left: Text)
    requires StringAt(line[..], pos, rest) && rest != [] && num == |ts| < starts.Length
    requires Found(line[..], starts[..num], ts, pos)
    modifies line, starts
    ensures past ==> TakeOne(rest, limit - pos) == Past && Found(line[..], starts[..num], ts, pos)
    ensures !past ==> next >= pos && TakeOne(rest, limit - pos) == Taken(token, left, next - pos)
    ensures !past ==> StringAt(line[..], next, left)
    ensures !past ==> Found(line[..], starts[..num + 1], ts + [token], if left == [] then next + 1 else next)
  {
    ghost var buf, found := line[..], starts[..num];
    StringByte(buf, pos, rest, 0);
    var start := if IsQuote(line[pos]) then pos + 1 else pos;
    starts[num] := start;
    assert starts[..num] == found && starts[..num + 1] == found + [start];
    next, past, token, left := TakeToken(line, pos, limit, rest);
    if past {
      FoundKept(buf, line[..], found, ts, pos);
    } else {
      FoundStep(buf, line[..], found, ts, pos, start, token, next, left);
    }
  }

  /** The tokens of the C string `s` in `line`, which is to be split into `words`. */
  method SplitString(line: array<byte>, starts: array<nat>, limit: nat, ghost s: Text, ghost words: Words)
    returns (ok: bool, num: nat)
    requires StringAt(line[..], 0, s) && starts.Length == TOKENS && Remaining(words, limit, [], 0, s)
    modifies line, starts
    ensures ok <==> words.Words?
    ensures ok ==>
              && num == |words.tokens| <= TOKENS
              && exists end: nat :: Found(line[..], starts[..num], words.tokens, end)
  {
    ghost var rest, ts := s, [];
    var pos: nat := 0;
    num := 0;
    while line[pos] != NUL
      invariant pos < line.Length
      invariant StringAt(line[..], pos, rest)
      invariant num == |ts| <= TOKENS && (num == TOKENS ==> rest == [])
      invariant Found(line[..], starts[..num], ts, if rest == [] then pos + 1 else pos)
      invariant Remaining(words, limit, ts, pos, rest)
      decreases |rest|
    {
      StringByte(line[..], pos, rest, 0);
      var next, past;
      ghost var token, left;
      next, past, token, left := NextToken(line, starts, num, pos, limit, rest, ts);
      if past {
        RemainingEnds(words, limit, ts, pos, rest);
        return true, num;
      }
      num := num + 1;
      RemainingStep(words, limit, ts, pos, rest, token, left, next);
      ts, rest, pos := ts + [token], left, next;
      StringByte(line[..], pos, rest, 0);
      if num == TOKENS && line[pos] != NUL {
        return false, num;
      }
    }
    StringByte(line[..], pos, rest, 0);
    RemainingEnds(words, limit, ts, pos, rest);
    ok := true;
  }

  lemma LineString(buf: Text)
    requires NUL in buf
    ensures StringAt(buf, 0, CStr(buf))
  {
    var s := CStr(buf);
    assert forall k :: 0 <= k < |s| ==> buf[0 + k] == s[k];
  }

  lemma AllRemains(words: Words, limit: nat, s: Text)
    requires words == Split(s, limit)
    ensures Remaining(words, limit, [], 0, s)
  {
    if words.Words? {
      assert [] + words.tokens == words.tokens;
    }
  }

  /**
   Splits the C string in `line`, of which `limit` bytes are the command: `starts` receives
   the position of each token, and a NUL ends each. Without success there are too many.
   */
  method SplitLine(line: array<byte>, starts: array<nat>, limit: nat) returns (ok: bool, num: nat)
    requires NUL in line[..] && starts.Length == TOKENS
    modifies line, starts
    ensures var words := Split(CStr(old(line[..])), limit);
            && (ok <==> words.Words?)
            && (ok ==> num == |words.tokens| <= TOKENS
                       && forall k :: 0 <= k < num ==> StringAt(line[..], starts[k], words.tokens[k]))
  {
    ghost var s := CStr(line[..]);
    ghost var words := Split(s, limit);
    LineString(line[..]);
    AllRemains(words, limit, s);
    ok, num := SplitString(line, starts, limit, s, words);
  }
}
