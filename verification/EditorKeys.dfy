/** What each key does to the line, by the bytes it sends. */
module EditorKeys {
  import opened Bytes
  import opened EditorSpec
  import E = EditorLines
  import L = HistoryLog
  import R = HistoryRuns
  import S = Splitter
  import T = Terminal

  /** The keys changed the line to these halves, and nothing else but a pending line end. */
  predicate Edited(e: Effect, ed: Editor, before: Text, after: Text) {
    && e.status == Done && e.ran == []
    && e.ed.before == before && e.ed.after == after
    && e.ed.log == ed.log && !e.ed.escape && e.ed.endl == 0
  }

  /** The keys moved the counter to `nav`, and the line is the record it names. */
  predicate Recalled(e: Effect, ed: Editor, nav: nat)
    requires nav <= |ed.log.records|
  {
    && e.status == Done && e.ran == []
    && e.ed.log == ed.log.(nav := nav)
    && e.ed.before == (if nav == 0 then [] else ed.log.records[|ed.log.records| - nav])
    && e.ed.after == [] && e.ed.stale == [] && !e.ed.escape && e.ed.endl == 0
  }

  // ---------------------------------------------------------------------------
  // Sequences
  // ---------------------------------------------------------------------------

  predicate SameButOut(e: Effect, f: Effect) {
    e.ed == f.ed && e.ran == f.ran && e.status == f.status
  }

  /** A byte in front that only changes the editor's mode. */
  lemma ModeByte(sh: Shell, ed: Editor, b: byte, rest: Text, ed': Editor)
    requires Valid(ed) && Valid(ed') && Step(sh, ed, b) == Quiet(ed')
    ensures SameButOut(Process(sh, ed, [b] + rest), Process(sh, ed', rest))
  {
    assert ([b] + rest)[1..] == rest;
    E.ProcessMore(sh, ed, [b] + rest, ed');
  }

  /** The bytes that open a control sequence. */
  lemma Opened(sh: Shell, ed: Editor, rest: Text)
    requires Valid(ed) && !ed.escape
    ensures var open := ed.(endl := 0, escape := true, code := Bracket);
            Valid(open) && SameButOut(Process(sh, ed, [T.ESC, T.BRACKET] + rest), Process(sh, open, rest))
  {
    var escaped := ed.(endl := 0, escape := true);
    var open := escaped.(code := Bracket);
    ModeByte(sh, escaped, T.BRACKET, rest, open);
    ModeByte(sh, ed, T.ESC, [T.BRACKET] + rest, escaped);
    assert [T.ESC] + ([T.BRACKET] + rest) == [T.ESC, T.BRACKET] + rest;
  }

  /** A sequence of three bytes. */
  lemma Letter(sh: Shell, ed: Editor, b: byte, c: Command)
    requires Valid(ed) && !ed.escape && EscapeByte(Bracket, b) == Complete(c)
    ensures SameButOut(Process(sh, ed, [T.ESC, T.BRACKET, b]), Perform(sh, ed.(endl := 0, code := Bracket), c))
  {
    var open := ed.(endl := 0, escape := true, code := Bracket);
    Opened(sh, ed, [b]);
    assert [T.ESC, T.BRACKET] + [b] == [T.ESC, T.BRACKET, b];
    E.ProcessOne(sh, open, b);
    assert open.(escape := false) == ed.(endl := 0, code := Bracket);
  }

  /** A sequence of a digit and a tilde. */
  lemma Digit(sh: Shell, ed: Editor, d: byte, code: Code, c: Command)
    requires Valid(ed) && !ed.escape && EscapeByte(Bracket, d) == More(code) && EscapeByte(code, 126) == Complete(c)
    ensures SameButOut(Process(sh, ed, [T.ESC, T.BRACKET, d, 126]), Perform(sh, ed.(endl := 0, code := code), c))
  {
    var open := ed.(endl := 0, escape := true, code := Bracket);
    Opened(sh, ed, [d, 126]);
    assert [T.ESC, T.BRACKET] + [d, 126] == [T.ESC, T.BRACKET, d, 126] && [d] + [126] == [d, 126];
    ModeByte(sh, open, d, [126], open.(code := code));
    E.ProcessOne(sh, open.(code := code), 126);
    assert open.(code := code, escape := false) == ed.(endl := 0, code := code);
  }

  lemma CommandBytes(b: byte)
    requires ControlCommand(b).Some?
    ensures T.IsControl(b) && b != T.CR && b != T.LF && b != T.ESC && b != 9 && b != 3
  {
  }

  /** A control character. */
  lemma Single(sh: Shell, ed: Editor, b: byte, c: Command)
    requires Valid(ed) && !ed.escape && ControlCommand(b) == Some(c)
    ensures SameButOut(Process(sh, ed, [b]), Perform(sh, ed.(endl := 0), c))
  {
    CommandBytes(b);
    assert Step(sh, ed, b) == ControlKey(sh, ed.(endl := 0), b);
    E.ProcessOne(sh, ed, b);
  }

  // ---------------------------------------------------------------------------
  // The cursor
  // ---------------------------------------------------------------------------

  const CTRL_A: byte := 1
  const CTRL_B: byte := 2
  const CTRL_C: byte := 3
  const CTRL_D: byte := 4
  const CTRL_E: byte := 5
  const CTRL_F: byte := 6
  const CTRL_K: byte := 11
  const CTRL_L: byte := 12
  const CTRL_N: byte := 14
  const CTRL_P: byte := 16
  const CTRL_R: byte := 18
  const CTRL_U: byte := 21
  const DEL: byte := 127

  const UP: Text := [T.ESC, T.BRACKET, 65]
  const DOWN: Text := [T.ESC, T.BRACKET, 66]
  const RIGHT: Text := [T.ESC, T.BRACKET, 67]
  const LEFT: Text := [T.ESC, T.BRACKET, 68]
  const HOME1: Text := [T.ESC, T.BRACKET, 49, 126]
  const HOME7: Text := [T.ESC, T.BRACKET, 55, 126]
  const END4: Text := [T.ESC, T.BRACKET, 52, 126]
  const END8: Text := [T.ESC, T.BRACKET, 56, 126]
  const DELETE3: Text := [T.ESC, T.BRACKET, 51, 126]
  const ALT_DEL: Text := [T.ESC, DEL]

  /** The right arrow and ^F: over one byte, if there is one. */
  lemma RightKeys(sh: Shell, ed: Editor)
    requires Valid(ed) && !ed.escape
    ensures ed.after != [] ==>
              && Edited(Process(sh, ed, RIGHT), ed, ed.before + [ed.after[0]], ed.after[1..])
              && Edited(Process(sh, ed, [CTRL_F]), ed, ed.before + [ed.after[0]], ed.after[1..])
    ensures ed.after == [] ==>
              Edited(Process(sh, ed, RIGHT), ed, ed.before, []) && Edited(Process(sh, ed, [CTRL_F]), ed, ed.before, [])
  {
    Letter(sh, ed, 67, RightKey);
    Single(sh, ed, CTRL_F, RightKey);
  }

  /** The left arrow and ^B: back over one byte, if there is one. */
  lemma LeftKeys(sh: Shell, ed: Editor)
    requires Valid(ed) && !ed.escape
    ensures ed.before != [] ==>
              var n := |ed.before| - 1;
              && Edited(Process(sh, ed, LEFT), ed, ed.before[..n], [ed.before[n]] + ed.after)
              && Edited(Process(sh, ed, [CTRL_B]), ed, ed.before[..n], [ed.before[n]] + ed.after)
    ensures ed.before == [] ==>
              Edited(Process(sh, ed, LEFT), ed, [], ed.after) && Edited(Process(sh, ed, [CTRL_B]), ed, [], ed.after)
  {
    Letter(sh, ed, 68, LeftKey);
    Single(sh, ed, CTRL_B, LeftKey);
  }

  /** The home key in both forms and ^A: to the start of the line. */
  lemma HomeKeys(sh: Shell, ed: Editor)
    requires Valid(ed) && !ed.escape
    ensures var line := ed.before + ed.after;
            && Edited(Process(sh, ed, HOME1), ed, [], line) && Edited(Process(sh, ed, HOME7), ed, [], line)
            && Edited(Process(sh, ed, [CTRL_A]), ed, [], line)
  {
    Digit(sh, ed, 49, Home, StartKey);
    Digit(sh, ed, 55, Home, StartKey);
    Single(sh, ed, CTRL_A, StartKey);
  }

  /** The end key in both forms and ^E: to the end of the line. */
  lemma EndKeys(sh: Shell, ed: Editor)
    requires Valid(ed) && !ed.escape
    ensures var line := ed.before + ed.after;
            && Edited(Process(sh, ed, END4), ed, line, []) && Edited(Process(sh, ed, END8), ed, line, [])
            && Edited(Process(sh, ed, [CTRL_E]), ed, line, [])
  {
    Digit(sh, ed, 52, End, EndKey);
    Digit(sh, ed, 56, End, EndKey);
    Single(sh, ed, CTRL_E, EndKey);
  }

  // ---------------------------------------------------------------------------
  // Deleting
  // ---------------------------------------------------------------------------

  /** The delete key, ^D, and Alt with the backspace key: the byte under the cursor goes. */
  lemma DeleteKeys(sh: Shell, ed: Editor)
    requires Valid(ed) && !ed.escape
    ensures var after := if ed.after == [] then [] else ed.after[1..];
            && Edited(Process(sh, ed, DELETE3), ed, ed.before, after)
            && Edited(Process(sh, ed, [CTRL_D]), ed, ed.before, after)
            && Edited(Process(sh, ed, ALT_DEL), ed, ed.before, after)
  {
    Digit(sh, ed, 51, Del, DeleteKey);
    Single(sh, ed, CTRL_D, DeleteKey);
    AltDelete(sh, ed);
  }

  lemma AltDelete(sh: Shell, ed: Editor)
    requires Valid(ed) && !ed.escape
    ensures SameButOut(Process(sh, ed, ALT_DEL), Perform(sh, ed.(endl := 0), DeleteKey))
  {
    var escaped := ed.(endl := 0, escape := true);
    ModeByte(sh, ed, T.ESC, [DEL], escaped);
    assert [T.ESC] + [DEL] == ALT_DEL;
    E.ProcessOne(sh, escaped, DEL);
    assert escaped.(escape := false) == ed.(endl := 0);
  }

  /** The backspace key, whichever of its two bytes it sends: the byte before the cursor goes. */
  lemma RuboutKeys(sh: Shell, ed: Editor)
    requires Valid(ed) && !ed.escape
    ensures var before := if ed.before == [] then [] else ed.before[..|ed.before| - 1];
            && Edited(Process(sh, ed, [DEL]), ed, before, ed.after)
            && Edited(Process(sh, ed, [T.BS]), ed, before, ed.after)
  {
    Single(sh, ed, DEL, RuboutKey);
    Single(sh, ed, T.BS, RuboutKey);
  }

  /** ^U cuts what is before the cursor, ^K what is after it. */
  lemma KillKeys(sh: Shell, ed: Editor)
    requires Valid(ed) && !ed.escape
    ensures Edited(Process(sh, ed, [CTRL_U]), ed, [], ed.after)
    ensures Edited(Process(sh, ed, [CTRL_K]), ed, ed.before, [])
  {
    Single(sh, ed, CTRL_U, KillBackKey);
    Single(sh, ed, CTRL_K, KillForwardKey);
  }

  // ---------------------------------------------------------------------------
  // History
  // ---------------------------------------------------------------------------

  /** The up arrow and ^P: one record older, and no further than the oldest. */
  lemma UpKeys(sh: Shell, ed: Editor)
    requires Valid(ed) && !ed.escape
    ensures var nav := if ed.log.nav < |ed.log.records| then ed.log.nav + 1 else ed.log.nav;
            Recalled(Process(sh, ed, UP), ed, nav) && Recalled(Process(sh, ed, [CTRL_P]), ed, nav)
  {
    Letter(sh, ed, 65, OlderKey);
    Single(sh, ed, CTRL_P, OlderKey);
  }

  /** The down arrow and ^N: one record newer, and no further than an empty line. */
  lemma DownKeys(sh: Shell, ed: Editor)
    requires Valid(ed) && !ed.escape
    ensures var nav := if ed.log.nav > 0 then ed.log.nav - 1 else 0;
            Recalled(Process(sh, ed, DOWN), ed, nav) && Recalled(Process(sh, ed, [CTRL_N]), ed, nav)
  {
    Letter(sh, ed, 66, NewerKey);
    Single(sh, ed, CTRL_N, NewerKey);
  }

  function UpArrows(k: nat): Text {
    if k == 0 then [] else UpArrows(k - 1) + UP
  }

  lemma RecalledThen(e: Effect, f: Effect, ed: Editor, nav: nat, nav': nat)
    requires nav <= |ed.log.records| && Recalled(e, ed, nav)
    requires nav' <= |e.ed.log.records| && Recalled(f, e.ed, nav')
    ensures Recalled(Then(e, f), ed, nav')
  {
  }

  /** The keys recall the record at `nav`. */
  predicate Recalls(sh: Shell, ed: Editor, keys: Text, nav: nat)
    requires Valid(ed)
  {
    nav <= |ed.log.records| && Recalled(Process(sh, ed, keys), ed, nav)
  }

  function AtMost(k: nat, n: nat): nat {
    if k <= n then k else n
  }

  lemma UpMore(sh: Shell, ed: Editor, keys: Text, nav: nat, nav': nat)
    requires Valid(ed) && Recalls(sh, ed, keys, nav)
    requires nav' == if nav < |ed.log.records| then nav + 1 else nav
    ensures Recalls(sh, ed, keys + UP, nav')
  {
    var e := Process(sh, ed, keys);
    ProcessConcat(sh, ed, keys, UP);
    UpKeys(sh, e.ed);
    RecalledThen(e, Process(sh, e.ed, UP), ed, nav, nav');
  }

  /** The up arrow, pressed `k` times on the empty line: the k-th newest record, or the oldest. */
  lemma {:induction false} UpTimes(sh: Shell, ed: Editor, k: nat)
    requires Valid(ed) && !ed.escape && ed.log.nav == 0 && k > 0
    ensures Recalls(sh, ed, UpArrows(k), AtMost(k, |ed.log.records|))
  {
    var n := |ed.log.records|;
    if k == 1 {
      UpKeys(sh, ed);
      assert UpArrows(0) + UP == UP;
    } else {
      var keys := UpArrows(k - 1);
      UpTimes(sh, ed, k - 1);
      UpMore(sh, ed, keys, AtMost(k - 1, n), AtMost(k, n));
    }
  }

  /**
   Enter on a line that can be saved, and then the up arrow `k` times: the k-th newest record
   of the history the run left, whose newest is the line itself unless it was skipped.
   */
  lemma EnterThenUps(sh: Shell, ed: Editor, k: nat)
    requires Valid(ed) && !ed.escape && ed.endl != T.LF && ed.Line() != [] && |ed.Line()| <= L.RING - 2 && k > 0
    ensures var run := Process(sh, ed, [T.CR]).ed;
            && Valid(run) && run.Line() == [] && run.log.nav == 0
            && Recalls(sh, run, UpArrows(k), AtMost(k, |run.log.records|))
            && (L.Compared(ed.log) != ed.CLine() ==> run.log.records != [] && R.Newest(run.log) == ed.Line())
            && (L.Compared(ed.log) == ed.CLine() ==> run.log.records == ed.log.records)
  {
    E.ProcessOne(sh, ed, T.CR);
    StepValid(sh, ed, T.CR);
    R.SaveResetsCounter(ed.log, ed.Line(), ed.CLine());
    UpTimes(sh, Process(sh, ed, [T.CR]).ed, k);
  }

  /** Enter on a line too long to be saved leaves history and counter where they were. */
  lemma EnterLong(sh: Shell, ed: Editor)
    requires Valid(ed) && !ed.escape && ed.endl != T.LF && |ed.Line()| > L.RING - 1
    ensures Process(sh, ed, [T.CR]).ed.log == ed.log
  {
    E.ProcessOne(sh, ed, T.CR);
  }

  // ---------------------------------------------------------------------------
  // Other bytes
  // ---------------------------------------------------------------------------

  /** A character: in front of the cursor if the line has room for it. */
  lemma TypedByte(sh: Shell, ed: Editor, ch: byte)
    requires Valid(ed) && !ed.escape && !Control(sh, ch) && (ch != SPACE || ed.Line() != [])
    ensures |ed.Line()| < LINE ==> Edited(Process(sh, ed, [ch]), ed, ed.before + [ch], ed.after)
    ensures |ed.Line()| == LINE ==>
              Process(sh, ed, [ch]).ed == ed.(endl := 0) && Process(sh, ed, [ch]).status == LineFull
  {
    E.ProcessOne(sh, ed, ch);
  }

  /** A byte from 128 on is typed where `char` is unsigned; where it is signed it does nothing. */
  lemma HighByte(sh: Shell, ed: Editor, ch: byte)
    requires Valid(ed) && !ed.escape && ch >= 128 && |ed.Line()| < LINE
    ensures Edited(Process(sh, ed, [ch]), ed, if sh.signedChar then ed.before else ed.before + [ch], ed.after)
  {
    E.ProcessOne(sh, ed, ch);
  }

  /** ^C leaves the line and prints what the callback prints. */
  lemma InterruptKey(sh: Shell, ed: Editor)
    requires Valid(ed) && !ed.escape
    ensures Edited(Process(sh, ed, [CTRL_C]), ed, ed.before, ed.after)
    ensures Process(sh, ed, [CTRL_C]).out == sh.interrupt
  {
    E.ProcessOne(sh, ed, CTRL_C);
  }

  /** A letter that no key sends ends the sequence and does nothing. */
  lemma UnknownLetter(sh: Shell, ed: Editor, b: byte)
    requires Valid(ed) && !ed.escape && EscapeByte(Bracket, b) == Unknown
    ensures Edited(Process(sh, ed, [T.ESC, T.BRACKET, b]), ed, ed.before, ed.after)
  {
    Opened(sh, ed, [b]);
    assert [T.ESC, T.BRACKET] + [b] == [T.ESC, T.BRACKET, b];
    E.ProcessOne(sh, ed.(endl := 0, escape := true, code := Bracket), b);
  }

  /** Which letters those are. */
  lemma UnknownLetters(b: byte)
    ensures EscapeByte(Bracket, b) == Unknown <==>
            !(65 <= b <= 68) && b != T.BRACKET && b != DEL && b !in {49, 51, 52, 55, 56}
  {
  }

  /** ^R and ^L leave the line as it is. */
  lemma RedrawKeys(sh: Shell, ed: Editor)
    requires Valid(ed) && !ed.escape
    ensures Edited(Process(sh, ed, [CTRL_R]), ed, ed.before, ed.after)
    ensures Edited(Process(sh, ed, [CTRL_L]), ed, ed.before, ed.after)
    ensures Process(sh, ed, [CTRL_R]).ed.stale == Process(sh, ed, [CTRL_L]).ed.stale == ed.stale
  {
    Single(sh, ed, CTRL_R, RedrawKey);
    Single(sh, ed, CTRL_L, ClearKey);
  }

  /**
   The digit of a sequence is kept when the sequence is over: after a home, end or delete key
   ESC and a tilde do the same again, and other bytes behind ESC do nothing.
   */
  lemma TildeRepeats(sh: Shell, ed: Editor, b: byte)
    requires Valid(ed) && !ed.escape && ed.code != Bracket && b != T.BRACKET && b != DEL
    ensures var e, line := Process(sh, ed, [T.ESC, b]), ed.before + ed.after;
            if b == 126 then
              match ed.code
              case Home => Edited(e, ed, [], line)
              case End => Edited(e, ed, line, [])
              case Del => Edited(e, ed, ed.before, if ed.after == [] then [] else ed.after[1..])
              case Bracket => false
            else Edited(e, ed, ed.before, ed.after)
    ensures Process(sh, ed, [T.ESC, b]).ed.code == ed.code
  {
    var escaped := ed.(endl := 0, escape := true);
    ModeByte(sh, ed, T.ESC, [b], escaped);
    assert [T.ESC] + [b] == [T.ESC, b];
    E.ProcessOne(sh, escaped, b);
    assert escaped.(escape := false) == ed.(endl := 0);
  }

  // ---------------------------------------------------------------------------
  // What stays behind the line
  // ---------------------------------------------------------------------------

  function AtMostBytes(s: Text, n: nat): (t: Text)
    ensures t <= s && |t| == AtMost(|s|, n)
  {
    if |s| <= n then s else s[..n]
  }

  /**
   The bytes a cut left behind the line: a key that removes bytes leaves as many of them as it
   removes, and moving the cursor leaves them all.
   */
  lemma BehindRemoved(sh: Shell, ed: Editor)
    requires Valid(ed) && !ed.escape
    ensures ed.before != [] ==> Process(sh, ed, [DEL]).ed.stale == AtMostBytes(ed.stale, 1)
    ensures ed.after != [] ==> Process(sh, ed, [CTRL_D]).ed.stale == AtMostBytes(ed.stale, 1)
    ensures ed.before != [] ==> Process(sh, ed, [CTRL_U]).ed.stale == AtMostBytes(ed.stale, |ed.before|)
    ensures Process(sh, ed, [CTRL_K]).ed.stale == ed.after + ed.stale
  {
    Single(sh, ed, DEL, RuboutKey);
    Single(sh, ed, CTRL_D, DeleteKey);
    Single(sh, ed, CTRL_U, KillBackKey);
    Single(sh, ed, CTRL_K, KillForwardKey);
  }

  lemma BehindMoved(sh: Shell, ed: Editor)
    requires Valid(ed) && !ed.escape
    ensures Process(sh, ed, [CTRL_A]).ed.stale == ed.stale && Process(sh, ed, [CTRL_E]).ed.stale == ed.stale
    ensures Process(sh, ed, [CTRL_B]).ed.stale == ed.stale && Process(sh, ed, [CTRL_F]).ed.stale == ed.stale
  {
    Single(sh, ed, CTRL_A, StartKey);
    Single(sh, ed, CTRL_E, EndKey);
    Single(sh, ed, CTRL_B, LeftKey);
    Single(sh, ed, CTRL_F, RightKey);
  }

  /** A typed character and a recalled record leave none. */
  lemma BehindWritten(sh: Shell, ed: Editor, ch: byte)
    requires Valid(ed) && !ed.escape
    ensures !Control(sh, ch) && (ch != SPACE || ed.Line() != []) && |ed.Line()| < LINE ==>
              Process(sh, ed, [ch]).ed.stale == []
    ensures Process(sh, ed, [CTRL_P]).ed.stale == Process(sh, ed, [CTRL_N]).ed.stale == []
  {
    if !Control(sh, ch) && (ch != SPACE || ed.Line() != []) {
      E.ProcessOne(sh, ed, ch);
    }
    UpKeys(sh, ed);
    DownKeys(sh, ed);
  }

  // ---------------------------------------------------------------------------
  // Too many tokens
  // ---------------------------------------------------------------------------

  /**
   Enter on a quote-free line with nothing behind it: when it has more than `TOKENS` words it is
   saved, but nothing runs and the error is printed; otherwise its words run as one command.
   */
  lemma EnterTooMany(sh: Shell, ed: Editor)
    requires Valid(ed) && !ed.escape && ed.endl != T.LF && ed.stale == []
    requires ed.Line() != [] && |ed.Line()| <= L.RING - 2 && S.QuoteFree(ed.Line())
    ensures var e, line := Process(sh, ed, [T.CR]), ed.Line();
            && e.ed.Line() == [] && e.ed.log == L.Save(ed.log, line, line)
            && (S.Fields(line) > S.TOKENS ==>
                  && e.ran == [] && e.status == TooManyTokens
                  && e.out == T.NEWLINE + (Ascii("ERROR: too many tokens") + T.NEWLINE) + sh.prompt)
            && (S.Fields(line) <= S.TOKENS ==>
                  && e.status == Done && |e.ran| == 1
                  && S.Join(e.ran[0]) == S.Body(line) && |e.ran[0]| == S.Fields(line)
                  && e.out == T.NEWLINE + sh.reply(e.ran[0]) + sh.prompt)
  {
    var line := ed.Line();
    E.ProcessOne(sh, ed, T.CR);
    assert line + [] == line && ed.CLine() == line;
    S.SplitQuoteFree(line);
    ErrorText();
  }

  lemma ErrorText()
    ensures ERROR == Ascii("ERROR: too many tokens")
  {
    var text := Ascii("ERROR: too many tokens");
    assert |ERROR| == |text| == 22;
    assert forall i :: 0 <= i < 22 ==> ERROR[i] == text[i];
  }
}
