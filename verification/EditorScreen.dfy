/**
 The terminal shows the line: interpreting every byte the editor writes, the row shows the
 prompt and the line with only blanks after them, and the terminal's cursor is where the
 editor's is. An interrupt breaks that until the line is entered or drawn anew.
 */
module EditorScreen {
  import opened Bytes
  import opened EditorSpec
  import S = Splitter
  import T = Terminal

  /** Output that leaves no control sequence open. */
  ghost predicate KeepsPlain(s: Text) {
    forall t: T.Term {:trigger T.Feed(t, s)} :: t.mode == T.Plain ==> T.Feed(t, s).mode == T.Plain
  }

  /**
   A prompt the cursor sequences can step over, commands that end their output on a blank row,
   and an interrupt that leaves no control sequence open.
   */
  ghost predicate Polite(sh: Shell) {
    && T.Graphic(sh.prompt) && |sh.prompt| + LINE <= 999 && KeepsPlain(sh.interrupt)
    && forall ts: seq<Text>, t: T.Term {:trigger T.Feed(t, sh.reply(ts))} ::
         T.Blank(t) ==> T.Blank(T.Feed(t, sh.reply(ts)))
  }

  /** The terminal shows the line of the editor. */
  ghost predicate InSync(sh: Shell, t: T.Term, ed: Editor) {
    T.Shows(t, sh.prompt + ed.Line(), |sh.prompt| + |ed.before|)
  }

  // ---------------------------------------------------------------------------
  // Pieces of output
  // ---------------------------------------------------------------------------

  /** A text written over the end of what the row starts with, then the rest erased. */
  lemma WriteTail(t: T.Term, head: Text, tail: Text)
    requires t.mode == T.Plain && t.col == |head| && T.Starts(t, head) && T.Graphic(tail)
    ensures T.Shows(T.Feed(T.Feed(t, tail), T.ERASE), head + tail, |head + tail|)
  {
    T.FeedGraphic(t, tail);
    T.FeedErase(T.Feed(t, tail));
  }

  /** Moving the cursor keeps what is shown. */
  lemma MoveWithin(t: T.Term, row: Text, col: nat, offset: int)
    requires T.Shows(t, row, col) && -999 <= offset <= 999 && col + offset >= 0
    ensures T.Shows(T.Feed(t, T.Move(offset)), row, col + offset)
  {
    T.FeedMove(t, offset);
    var u := t.(col := t.col + offset);
    assert forall i: nat :: T.Cell(u, i) == T.Cell(t, i);
  }

  /** Reprinting from the end of `head` needs only `head` to be right. */
  lemma ReprintShows(t: T.Term, head: Text, tail: Text, back: int, reset: bool)
    requires T.Graphic(tail) && 0 <= back <= |tail| + |head| && |head| + |tail| <= 999
    requires t.mode == T.Plain && T.Starts(t, head) && (reset || t.col == |head|)
    ensures var out := (if reset then [T.CR] + T.Move(|head|) else []) + tail + T.ERASE + T.Move(-back);
            T.Shows(T.Feed(t, out), head + tail, |head + tail| - back)
  {
    var front := if reset then [T.CR] + T.Move(|head|) else [];
    T.FeedConcat(t, front + tail + T.ERASE, T.Move(-back));
    T.FeedConcat(t, front + tail, T.ERASE);
    T.FeedConcat(t, front, tail);
    FrontMoves(t, head, reset);
    var u := T.Feed(t, front);
    WriteTail(u, head, tail);
    MoveWithin(T.Feed(T.Feed(u, tail), T.ERASE), head + tail, |head + tail|, -back);
  }

  /** Reprinting the line from column `pos` needs only what lies before `pos` to be right. */
  lemma PrintLineShows(sh: Shell, t: T.Term, ed: Editor, pos: nat, reset: bool)
    requires Polite(sh) && Valid(ed) && pos <= |ed.Line()|
    requires t.mode == T.Plain && T.Starts(t, sh.prompt + ed.Line()[..pos])
    requires reset || t.col == |sh.prompt| + pos
    ensures InSync(sh, T.Feed(t, PrintLine(sh, ed, pos, reset)), ed)
  {
    var head, tail := sh.prompt + ed.Line()[..pos], ed.Line()[pos..];
    assert head + tail == sh.prompt + ed.Line();
    ReprintShows(t, head, tail, |ed.after|, reset);
  }

  lemma FrontMoves(t: T.Term, head: Text, reset: bool)
    requires t.mode == T.Plain && T.Starts(t, head) && |head| <= 999 && (reset || t.col == |head|)
    ensures var u := T.Feed(t, if reset then [T.CR] + T.Move(|head|) else []);
            u.mode == T.Plain && u.col == |head| && T.Starts(u, head)
  {
    if reset {
      T.FeedConcat(t, [T.CR], T.Move(|head|));
      T.FeedOne(t, T.CR);
      T.FeedMove(t.(col := 0), |head|);
      var u := t.(col := |head|);
      assert forall i: nat :: T.Cell(u, i) == T.Cell(t, i);
    }
  }

  lemma FeedThree(t: T.Term, a: Text, b: Text, c: Text)
    ensures T.Feed(t, a + b + c) == T.Feed(T.Feed(T.Feed(t, a), b), c)
  {
    T.FeedConcat(t, a + b, c);
    T.FeedConcat(t, a, b);
  }

  /** Output that ends on a blank row, the prompt, and the line. */
  lemma PromptAndLine(sh: Shell, t: T.Term, out: Text, ed: Editor)
    requires Polite(sh) && Valid(ed) && T.Blank(T.Feed(t, out))
    ensures InSync(sh, T.Feed(t, out + sh.prompt + PrintLine(sh, ed, 0, false)), ed)
  {
    FeedThree(t, out, sh.prompt, PrintLine(sh, ed, 0, false));
    T.FeedGraphic(T.Feed(t, out), sh.prompt);
    PrintLineShows(sh, T.Feed(T.Feed(t, out), sh.prompt), ed, 0, false);
  }

  /** Output that ends on a blank row, and the prompt of an empty line. */
  lemma PromptAlone(sh: Shell, t: T.Term, out: Text, ed: Editor)
    requires Polite(sh) && ed.before == [] && ed.after == [] && T.Blank(T.Feed(t, out))
    ensures InSync(sh, T.Feed(t, out + sh.prompt), ed)
  {
    T.FeedConcat(t, out, sh.prompt);
    T.FeedGraphic(T.Feed(t, out), sh.prompt);
    assert sh.prompt + ed.Line() == sh.prompt;
  }

  // ---------------------------------------------------------------------------
  // Keys
  // ---------------------------------------------------------------------------

  /** The row up to any column of the line it shows. */
  lemma StartsOfShows(t: T.Term, row: Text, col: nat, head: Text)
    requires T.Shows(t, row, col) && head <= row
    ensures T.Starts(t, head)
  {
  }

  lemma InsertInSync(sh: Shell, t: T.Term, ed: Editor, ch: byte)
    requires Polite(sh) && Valid(ed) && InSync(sh, t, ed) && !T.IsControl(ch)
    ensures var e := Insert(sh, ed, ch); InSync(sh, T.Feed(t, e.out), e.ed)
  {
    var e := Insert(sh, ed, ch);
    if e.status == Done {
      if ed.after == [] {
        T.FeedOne(t, ch);
        T.PutCell(t, ch);
        assert e.ed.Line() == ed.Line() + [ch];
      } else {
        var head := sh.prompt + ed.before;
        assert sh.prompt + ed.Line() == head + ed.after;
        assert e.ed.Line()[..|ed.before|] == ed.before;
        StartsOfShows(t, sh.prompt + ed.Line(), |head|, head);
        PrintLineShows(sh, t, e.ed, |ed.before|, false);
      }
    }
  }

  /** Reprinting a line whose first `pos` bytes are still those of the line shown. */
  lemma ReprintInSync(sh: Shell, t: T.Term, ed: Editor, ed': Editor, pos: nat, reset: bool)
    requires Polite(sh) && Valid(ed') && InSync(sh, t, ed)
    requires pos <= |ed.Line()| && pos <= |ed'.Line()| && ed.Line()[..pos] == ed'.Line()[..pos]
    requires reset || pos == |ed.before|
    ensures InSync(sh, T.Feed(t, PrintLine(sh, ed', pos, reset)), ed')
  {
    var head := sh.prompt + ed.Line()[..pos];
    assert sh.prompt + ed.Line() == head + ed.Line()[pos..];
    StartsOfShows(t, sh.prompt + ed.Line(), |sh.prompt| + |ed.before|, head);
    PrintLineShows(sh, t, ed', pos, reset);
  }

  lemma RuboutInSync(sh: Shell, t: T.Term, ed: Editor)
    requires Polite(sh) && Valid(ed) && InSync(sh, t, ed)
    ensures var e := Rubout(sh, ed); InSync(sh, T.Feed(t, e.out), e.ed)
  {
    var e := Rubout(sh, ed);
    if ed.before != [] {
      PerformValid(sh, ed, RuboutKey);
      if ed.after == [] {
        assert T.RUBOUT[1..] == [SPACE, T.BS];
        T.FeedTwo(T.Step(t, T.BS), SPACE, T.BS);
        var u := t.(col := t.col - 1);
        assert forall i: nat :: T.Cell(u, i) == T.Cell(t, i);
        T.PutCell(u, SPACE);
        var v := T.Put(u, SPACE);
        assert forall i: nat :: T.Cell(v.(col := u.col), i) == T.Cell(v, i);
        assert sh.prompt + ed.Line() == sh.prompt + e.ed.Line() + [ed.before[|ed.before| - 1]];
      } else {
        assert ed.Line()[..|e.ed.before|] == e.ed.before == e.ed.Line()[..|e.ed.before|];
        ReprintInSync(sh, t, ed, e.ed, |e.ed.before|, true);
      }
    }
  }

  lemma DeleteInSync(sh: Shell, t: T.Term, ed: Editor)
    requires Polite(sh) && Valid(ed) && InSync(sh, t, ed)
    ensures var e := Delete(sh, ed); InSync(sh, T.Feed(t, e.out), e.ed)
  {
    var ed' := RemoveForward(ed);
    PerformValid(sh, ed, DeleteKey);
    assert ed.Line()[..|ed.before|] == ed.before == ed'.Line()[..|ed.before|];
    ReprintInSync(sh, t, ed, ed', |ed.before|, false);
  }

  lemma KillForwardInSync(sh: Shell, t: T.Term, ed: Editor)
    requires InSync(sh, t, ed)
    ensures var e := KillForward(ed); InSync(sh, T.Feed(t, e.out), e.ed)
  {
    T.FeedErase(t);
    assert sh.prompt + ed.Line() == sh.prompt + ed.before + ed.after;
    assert KillForward(ed).ed.Line() == ed.before;
  }

  /** A move of the cursor over the same line. */
  lemma CursorMoved(sh: Shell, t: T.Term, ed: Editor, ed': Editor, offset: int)
    requires InSync(sh, t, ed) && ed'.Line() == ed.Line()
    requires |ed'.before| == |ed.before| + offset && -999 <= offset <= 999
    ensures InSync(sh, T.Feed(t, T.Move(offset)), ed')
  {
    MoveWithin(t, sh.prompt + ed.Line(), t.col, offset);
  }

  /** The cursor keys move the cursor and nothing else. */
  lemma CursorKey(sh: Shell, ed: Editor, c: Command)
    requires Valid(ed) && (c.StartKey? || c.EndKey? || c.RightKey? || c.LeftKey?)
    ensures var e := Perform(sh, ed, c);
            e.ed.Line() == ed.Line() && e.out == T.Move(|e.ed.before| - |ed.before|)
  {
    var line := ed.Line();
    match c {
      case StartKey => assert [] + line == line;
      case EndKey => assert line + [] == line;
      case RightKey =>
        if ed.after != [] {
          assert ed.before + [ed.after[0]] + ed.after[1..] == line;
        }
      case LeftKey =>
        if ed.before != [] {
          var n := |ed.before| - 1;
          assert ed.before[..n] + ([ed.before[n]] + ed.after) == line;
        }
    }
  }

  lemma CursorInSync(sh: Shell, t: T.Term, ed: Editor, c: Command)
    requires Polite(sh) && Valid(ed) && InSync(sh, t, ed)
    requires c.StartKey? || c.EndKey? || c.RightKey? || c.LeftKey?
    ensures var e := Perform(sh, ed, c); InSync(sh, T.Feed(t, e.out), e.ed)
  {
    var e := Perform(sh, ed, c);
    CursorKey(sh, ed, c);
    PerformValid(sh, ed, c);
    CursorMoved(sh, t, ed, e.ed, |e.ed.before| - |ed.before|);
  }

  lemma FeedClear(t: T.Term)
    requires t.mode == T.Plain
    ensures T.Blank(T.Feed(t, T.CLEAR + T.HOME))
  {
    var two: Text := [50];
    assert T.Decimal(2) == two && T.CLEAR == [T.ESC, T.BRACKET] + two + [74];
    T.FeedControl(t, 2, 74);
    T.FeedConcat(t, T.CLEAR, T.HOME);
    assert T.HOME == [T.ESC, T.BRACKET] + T.Decimal(0) + [72];
    T.FeedControl(T.Feed(t, T.CLEAR), 0, 72);
  }

  /** Redrawing, or clearing the screen, shows the line whatever the row showed before. */
  lemma {:induction false} RedrawSyncs(sh: Shell, t: T.Term, ed: Editor)
    requires Polite(sh) && Valid(ed) && t.mode == T.Plain
    ensures InSync(sh, T.Feed(t, Redraw(sh, ed).out), ed)
    ensures InSync(sh, T.Feed(t, ClearScreen(sh, ed).out), ed)
  {
    T.FeedNewline(t);
    PromptAndLine(sh, t, T.NEWLINE, ed);
    FeedClear(t);
    PromptAndLine(sh, t, T.CLEAR + T.HOME, ed);
  }

  lemma PerformInSync(sh: Shell, t: T.Term, ed: Editor, c: Command)
    requires Polite(sh) && Valid(ed) && InSync(sh, t, ed)
    ensures var e := Perform(sh, ed, c); InSync(sh, T.Feed(t, e.out), e.ed)
  {
    PerformValid(sh, ed, c);
    match c {
      case RuboutKey => RuboutInSync(sh, t, ed);
      case DeleteKey => DeleteInSync(sh, t, ed);
      case KillBackKey => ReprintInSync(sh, t, ed, Perform(sh, ed, c).ed, 0, true);
      case KillForwardKey => KillForwardInSync(sh, t, ed);
      case StartKey => CursorInSync(sh, t, ed, c);
      case EndKey => CursorInSync(sh, t, ed, c);
      case RightKey => CursorInSync(sh, t, ed, c);
      case LeftKey => CursorInSync(sh, t, ed, c);
      case OlderKey => ReprintInSync(sh, t, ed, Perform(sh, ed, c).ed, 0, true);
      case NewerKey => ReprintInSync(sh, t, ed, Perform(sh, ed, c).ed, 0, true);
      case RedrawKey => RedrawSyncs(sh, t, ed);
      case ClearKey => RedrawSyncs(sh, t, ed);
    }
  }

  /** Enter shows the prompt on a row of its own, whatever the row showed before. */
  lemma EnterSyncs(sh: Shell, t: T.Term, ed: Editor)
    requires Polite(sh) && Valid(ed) && t.mode == T.Plain && Enter(sh, ed).status != Hung
    ensures var e := Enter(sh, ed); InSync(sh, T.Feed(t, e.out), e.ed)
  {
    T.FeedNewline(t);
    var e := Enter(sh, ed);
    var run := if ed.Line() == [] then Outcome([], [], Done) else RunWords(sh, S.Split(ed.CLine(), |ed.Line()|));
    RunBlank(sh, T.Feed(t, T.NEWLINE), S.Split(ed.CLine(), |ed.Line()|));
    T.FeedConcat(t, T.NEWLINE, run.out);
    PromptAlone(sh, t, T.NEWLINE + run.out, e.ed);
  }

  /** What a command prints, the error message included, ends on a blank row. */
  lemma RunBlank(sh: Shell, t: T.Term, words: S.Words)
    requires Polite(sh) && T.Blank(t)
    ensures T.Blank(T.Feed(t, RunWords(sh, words).out))
  {
    match words {
      case Words(ts) =>
        assert T.Blank(T.Feed(t, sh.reply(ts)));
      case TooMany =>
        MessageLine(t, ERROR);
    }
  }

  lemma MessageLine(t: T.Term, message: Text)
    requires t.mode == T.Plain && T.Graphic(message)
    ensures T.Blank(T.Feed(t, message + T.NEWLINE))
  {
    T.FeedConcat(t, message, T.NEWLINE);
    T.FeedGraphic(t, message);
    T.FeedNewline(T.Feed(t, message));
  }

  /** One byte of input, any but ^C. */
  lemma {:induction false} KeyInSync(sh: Shell, t: T.Term, ed: Editor, ch: byte)
    requires Polite(sh) && Valid(ed) && InSync(sh, t, ed)
    requires ch != 3 || ed.escape
    requires Step(sh, ed, ch).status != Hung
    ensures var e := Step(sh, ed, ch); InSync(sh, T.Feed(t, e.out), e.ed)
  {
    assert T.Feed(t, []) == t;
    if ed.escape {
      var s := EscapeByte(ed.code, ch);
      if s.Complete? {
        PerformInSync(sh, t, ed.(escape := false), s.command);
      }
    } else if ch == T.CR || ch == T.LF {
      if ed.endl != (if ch == T.CR then T.LF else T.CR) {
        EnterSyncs(sh, t, ed.(endl := ch));
      }
    } else if Control(sh, ch) {
      var command := ControlCommand(ch);
      if command.Some? {
        PerformInSync(sh, t, ed.(endl := 0), command.value);
      }
    } else {
      InsertInSync(sh, t, ed.(endl := 0), ch);
    }
  }

  // ---------------------------------------------------------------------------
  // No key leaves a control sequence open
  // ---------------------------------------------------------------------------

  lemma PlainConcat(a: Text, b: Text)
    requires KeepsPlain(a) && KeepsPlain(b)
    ensures KeepsPlain(a + b)
  {
    forall t: T.Term | t.mode == T.Plain ensures T.Feed(t, a + b).mode == T.Plain {
      T.FeedConcat(t, a, b);
      assert T.Feed(t, a).mode == T.Plain;
    }
  }

  lemma PlainGraphic(s: Text)
    requires T.Graphic(s)
    ensures KeepsPlain(s)
  {
    forall t: T.Term | t.mode == T.Plain ensures T.Feed(t, s).mode == T.Plain {
      T.FeedGraphic(t, s);
    }
  }

  lemma PlainMove(offset: int)
    ensures KeepsPlain(T.Move(offset))
  {
    forall t: T.Term | t.mode == T.Plain ensures T.Feed(t, T.Move(offset)).mode == T.Plain {
      if offset > 0 {
        T.FeedControl(t, if offset > 999 then 999 else offset, T.CUF);
      } else if offset < 0 {
        T.FeedControl(t, if offset < -999 then 999 else -offset, T.CUB);
      }
    }
  }

  lemma PlainErase()
    ensures KeepsPlain(T.ERASE)
  {
    forall t: T.Term | t.mode == T.Plain ensures T.Feed(t, T.ERASE).mode == T.Plain {
      T.FeedErase(t);
    }
  }

  lemma PlainRubout()
    ensures KeepsPlain(T.RUBOUT)
  {
    forall t: T.Term | t.mode == T.Plain ensures T.Feed(t, T.RUBOUT).mode == T.Plain {
      assert T.RUBOUT[1..] == [SPACE, T.BS];
      T.FeedTwo(T.Step(t, T.BS), SPACE, T.BS);
    }
  }

  lemma PlainReprint(front: Text, tail: Text, back: int)
    requires KeepsPlain(front) && T.Graphic(tail)
    ensures KeepsPlain(front + tail + T.ERASE + T.Move(back))
  {
    PlainGraphic(tail);
    PlainConcat(front, tail);
    PlainErase();
    PlainConcat(front + tail, T.ERASE);
    PlainMove(back);
    PlainConcat(front + tail + T.ERASE, T.Move(back));
  }

  function Front(column: nat, reset: bool): Text {
    if reset then [T.CR] + T.Move(column) else []
  }

  lemma PlainFront(column: nat, reset: bool)
    ensures KeepsPlain(Front(column, reset))
  {
    if reset {
      forall t: T.Term | t.mode == T.Plain ensures T.Feed(t, [T.CR]).mode == T.Plain {
        T.FeedOne(t, T.CR);
      }
      PlainMove(column);
      PlainConcat([T.CR], T.Move(column));
    } else {
      PlainGraphic([]);
    }
  }

  lemma PlainLine(sh: Shell, ed: Editor, pos: nat, reset: bool)
    requires Valid(ed) && pos <= |ed.Line()|
    ensures KeepsPlain(PrintLine(sh, ed, pos, reset))
  {
    var front := Front(|sh.prompt| + pos, reset);
    PlainFront(|sh.prompt| + pos, reset);
    PlainReprint(front, ed.Line()[pos..], -|ed.after|);
    assert PrintLine(sh, ed, pos, reset) == front + ed.Line()[pos..] + T.ERASE + T.Move(-|ed.after|);
  }

  lemma PerformPlain(sh: Shell, t: T.Term, ed: Editor, c: Command)
    requires Polite(sh) && Valid(ed) && t.mode == T.Plain
    ensures T.Feed(t, Perform(sh, ed, c).out).mode == T.Plain
  {
    var e := Perform(sh, ed, c);
    PerformValid(sh, ed, c);
    PlainGraphic([]);
    match c {
      case RuboutKey =>
        if ed.before != [] {
          PlainRubout();
          PlainLine(sh, e.ed, |e.ed.before|, true);
        }
      case DeleteKey => PlainLine(sh, e.ed, |e.ed.before|, false);
      case KillForwardKey => PlainErase();
      case StartKey => PlainMove(-|ed.before|);
      case EndKey => PlainMove(|ed.after|);
      case RightKey => PlainMove(1);
      case LeftKey => PlainMove(-1);
      case RedrawKey => RedrawSyncs(sh, t, ed);
      case ClearKey => RedrawSyncs(sh, t, ed);
      case _ => PlainLine(sh, e.ed, 0, true);
    }
  }

  lemma InsertPlain(sh: Shell, t: T.Term, ed: Editor, ch: byte)
    requires Valid(ed) && t.mode == T.Plain && !T.IsControl(ch)
    ensures T.Feed(t, Insert(sh, ed, ch).out).mode == T.Plain
  {
    PlainGraphic([]);
    if |ed.before| + |ed.after| + 1 <= LINE {
      var ed' := ed.(before := ed.before + [ch], stale := []);
      PlainGraphic([ch]);
      PlainLine(sh, ed', |ed.before|, false);
    }
  }

  lemma {:induction false} KeyPlain(sh: Shell, t: T.Term, ed: Editor, ch: byte)
    requires Polite(sh) && Valid(ed) && t.mode == T.Plain && Step(sh, ed, ch).status != Hung
    ensures T.Feed(t, Step(sh, ed, ch).out).mode == T.Plain
  {
    assert T.Feed(t, []) == t;
    if ed.escape {
      var s := EscapeByte(ed.code, ch);
      if s.Complete? {
        PerformPlain(sh, t, ed.(escape := false), s.command);
      }
    } else if ch == T.CR || ch == T.LF {
      if ed.endl != (if ch == T.CR then T.LF else T.CR) {
        EnterSyncs(sh, t, ed.(endl := ch));
      }
    } else if Control(sh, ch) {
      var command := ControlCommand(ch);
      if command.Some? {
        PerformPlain(sh, t, ed.(endl := 0), command.value);
      }
    } else {
      InsertPlain(sh, t, ed.(endl := 0), ch);
    }
  }

  // ---------------------------------------------------------------------------
  // Whole sessions
  // ---------------------------------------------------------------------------

  const CTRL_C: byte := 3
  const CTRL_L: byte := 12
  const CTRL_R: byte := 18

  /**
   Whether the line is on the terminal after a byte: not after ^C, until Enter, ^R or ^L shows
   it again.
   */
  predicate Shown(ed: Editor, shown: bool, ch: byte) {
    if ed.escape then shown
    else if ch == T.CR || ch == T.LF then shown || ed.endl != if ch == T.CR then T.LF else T.CR
    else ch != CTRL_C && (shown || ch == CTRL_R || ch == CTRL_L)
  }

  /** The same after one call. */
  predicate ShownCall(sh: Shell, ed: Editor, shown: bool, data: Text)
    requires Valid(ed)
    decreases |data|
  {
    if data == [] then shown
    else
      var e := Step(sh, ed, data[0]);
      StepValid(sh, ed, data[0]);
      var now := Shown(ed, shown, data[0]);
      if e.status != Done then now else ShownCall(sh, e.ed, now, data[1..])
  }

  /** The same after any number of calls. */
  predicate ShownSession(sh: Shell, ed: Editor, shown: bool, chunks: seq<Text>)
    requires Valid(ed)
    decreases |chunks|
  {
    if chunks == [] then shown
    else
      ProcessValid(sh, ed, chunks[0]);
      ShownSession(sh, Process(sh, ed, chunks[0]).ed, ShownCall(sh, ed, shown, chunks[0]), chunks[1..])
  }

  /** No control sequence is open, and the line is on the terminal if it is to be. */
  ghost predicate Tracks(sh: Shell, t: T.Term, ed: Editor, shown: bool) {
    t.mode == T.Plain && (shown ==> InSync(sh, t, ed))
  }

  /** One byte of input. */
  lemma {:induction false} StepInSync(sh: Shell, t: T.Term, ed: Editor, shown: bool, ch: byte)
    requires Polite(sh) && Valid(ed) && Tracks(sh, t, ed, shown)
    requires Step(sh, ed, ch).status != Hung
    ensures var e := Step(sh, ed, ch); Tracks(sh, T.Feed(t, e.out), e.ed, Shown(ed, shown, ch))
  {
    KeyPlain(sh, t, ed, ch);
    if shown {
      if ch != CTRL_C || ed.escape {
        KeyInSync(sh, t, ed, ch);
      }
    } else if Shown(ed, false, ch) {
      ShownAnew(sh, t, ed, ch);
    }
  }

  lemma RedrawKeys(sh: Shell, ed: Editor)
    requires ed.log.nav <= |ed.log.records| && !ed.escape
    ensures Step(sh, ed, CTRL_R) == Redraw(sh, ed.(endl := 0))
    ensures Step(sh, ed, CTRL_L) == ClearScreen(sh, ed.(endl := 0))
  {
  }

  /** The bytes that show the line whatever the row showed before. */
  lemma ShownAnew(sh: Shell, t: T.Term, ed: Editor, ch: byte)
    requires Polite(sh) && Valid(ed) && t.mode == T.Plain
    requires Shown(ed, false, ch) && Step(sh, ed, ch).status != Hung
    ensures var e := Step(sh, ed, ch); InSync(sh, T.Feed(t, e.out), e.ed)
  {
    if ch == T.CR || ch == T.LF {
      EnterSyncs(sh, t, ed.(endl := ch));
    } else {
      RedrawKeys(sh, ed);
      RedrawSyncs(sh, t, ed.(endl := 0));
    }
  }

  /** One call with a chunk of input, however it ends. */
  lemma {:induction false} ProcessInSync(sh: Shell, t: T.Term, ed: Editor, shown: bool, data: Text)
    requires Polite(sh) && Valid(ed) && Tracks(sh, t, ed, shown)
    requires Process(sh, ed, data).status != Hung
    ensures var e := Process(sh, ed, data); Tracks(sh, T.Feed(t, e.out), e.ed, ShownCall(sh, ed, shown, data))
    decreases |data|
  {
    if data == [] {
      assert T.Feed(t, []) == t;
    } else {
      var e := Step(sh, ed, data[0]);
      StepInSync(sh, t, ed, shown, data[0]);
      StepValid(sh, ed, data[0]);
      if e.status == Done {
        var u := T.Feed(t, e.out);
        ProcessInSync(sh, u, e.ed, Shown(ed, shown, data[0]), data[1..]);
        T.FeedConcat(t, e.out, Process(sh, e.ed, data[1..]).out);
      }
    }
  }

  /** Any number of calls, none of which hangs. */
  lemma {:induction false} SessionInSync(sh: Shell, t: T.Term, ed: Editor, shown: bool, chunks: seq<Text>)
    requires Polite(sh) && Valid(ed) && Tracks(sh, t, ed, shown)
    requires Session(sh, ed, chunks).status != Hung
    ensures var e := Session(sh, ed, chunks); Tracks(sh, T.Feed(t, e.out), e.ed, ShownSession(sh, ed, shown, chunks))
    decreases |chunks|
  {
    assert T.Feed(t, []) == t;
    if chunks != [] {
      var e := Call(sh, ed, chunks[0]);
      var now := ShownCall(sh, ed, shown, chunks[0]);
      ProcessInSync(sh, t, ed, shown, chunks[0]);
      ProcessValid(sh, ed, chunks[0]);
      SessionInSync(sh, T.Feed(t, e.out), e.ed, now, chunks[1..]);
      T.FeedConcat(t, e.out, Session(sh, e.ed, chunks[1..]).out);
    }
  }

  lemma {:induction false} CallStaysShown(sh: Shell, ed: Editor, data: Text)
    requires Valid(ed) && CTRL_C !in data
    ensures ShownCall(sh, ed, true, data)
    decreases |data|
  {
    if data != [] {
      var e := Step(sh, ed, data[0]);
      StepValid(sh, ed, data[0]);
      if e.status == Done {
        CallStaysShown(sh, e.ed, data[1..]);
      }
    }
  }

  lemma {:induction false} SessionStaysShown(sh: Shell, ed: Editor, chunks: seq<Text>)
    requires Valid(ed) && forall i :: 0 <= i < |chunks| ==> CTRL_C !in chunks[i]
    ensures ShownSession(sh, ed, true, chunks)
    decreases |chunks|
  {
    if chunks != [] {
      CallStaysShown(sh, ed, chunks[0]);
      ProcessValid(sh, ed, chunks[0]);
      SessionStaysShown(sh, Process(sh, ed, chunks[0]).ed, chunks[1..]);
    }
  }

  lemma FirstEnterShows(sh: Shell, ed: Editor, data: Text)
    requires Valid(ed) && !ed.escape && ed.endl == 0
    requires data != [] && (data[0] == T.CR || data[0] == T.LF) && CTRL_C !in data
    ensures ShownCall(sh, ed, false, data)
  {
    var e := Step(sh, ed, data[0]);
    StepValid(sh, ed, data[0]);
    assert Shown(ed, false, data[0]);
    if e.status == Done {
      CallStaysShown(sh, e.ed, data[1..]);
    }
  }

  /**
   A session on a terminal that shows anything, from an editor such as `START`, which prints
   no prompt before the first Enter: if the session starts with Enter and ^C is not pressed,
   the terminal shows the line at its end.
   */
  lemma StartInSync(sh: Shell, t: T.Term, ed: Editor, chunks: seq<Text>)
    requires Polite(sh) && t.mode == T.Plain && Valid(ed) && !ed.escape && ed.endl == 0
    requires Session(sh, ed, chunks).status != Hung
    requires chunks != [] && chunks[0] != [] && (chunks[0][0] == T.CR || chunks[0][0] == T.LF)
    requires forall i :: 0 <= i < |chunks| ==> CTRL_C !in chunks[i]
    ensures var e := Session(sh, ed, chunks); InSync(sh, T.Feed(t, e.out), e.ed)
  {
    FirstEnterShows(sh, ed, chunks[0]);
    ProcessValid(sh, ed, chunks[0]);
    SessionStaysShown(sh, Process(sh, ed, chunks[0]).ed, chunks[1..]);
    SessionInSync(sh, t, ed, false, chunks);
  }

  /** What the firmware prints on an interrupt. */
  const INTERRUPT: Text := [94, 67, T.CR, T.LF]

  /**
   ^C in the firmware: the cursor is left on a blank row, so the line stays shown exactly when
   it is shown as blanks in the first column.
   */
  lemma InterruptBreaks(sh: Shell, t: T.Term, ed: Editor)
    requires InSync(sh, t, ed) && sh.interrupt == INTERRUPT
    ensures InSync(sh, T.Feed(t, sh.interrupt), ed) <==>
            sh.prompt == [] && ed.before == [] && forall i :: 0 <= i < |ed.after| ==> ed.after[i] == SPACE
  {
    var mark: Text := [94, 67];
    assert INTERRUPT == mark + T.NEWLINE;
    MessageLine(t, mark);
    var u := T.Feed(t, INTERRUPT);
    if sh.prompt == [] && ed.before == [] {
      assert sh.prompt + ed.Line() == ed.after;
      assert forall i :: 0 <= i < |ed.after| ==> T.Cell(u, i) == SPACE;
    }
  }

  /** Such a callback leaves no control sequence open. */
  lemma InterruptPlain()
    ensures KeepsPlain(INTERRUPT)
  {
    var mark: Text := [94, 67];
    assert INTERRUPT == mark + T.NEWLINE;
    forall t: T.Term | t.mode == T.Plain ensures T.Feed(t, INTERRUPT).mode == T.Plain {
      MessageLine(t, mark);
    }
  }
}
