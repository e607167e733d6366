/** Typing whole lines: what runs, whichever way the lines end and whatever the buffer still holds. */
module EditorLines {
  import opened Bytes
  import opened EditorSpec
  import L = HistoryLog
  import R = HistoryRuns
  import S = Splitter
  import T = Terminal

  // ---------------------------------------------------------------------------
  // Line endings
  // ---------------------------------------------------------------------------

  datatype Ending = Cr | Lf | CrLf | LfCr

  function EndingBytes(e: Ending): Text {
    match e
    case Cr => [T.CR]
    case Lf => [T.LF]
    case CrLf => [T.CR, T.LF]
    case LfCr => [T.LF, T.CR]
  }

  /** A line that can be typed and run: printable, no leading space, fit for the history, not too many tokens. */
  predicate Typable(sh: Shell, line: Text) {
    && Printable(sh, line) && |line| <= L.RING - 2
    && (line != [] ==> line[0] != SPACE)
    && S.Split(line, |line|).Words?
  }

  predicate AllTypable(sh: Shell, lines: seq<Text>) {
    forall i :: 0 <= i < |lines| ==> Typable(sh, lines[i])
  }

  function Typed(lines: seq<Text>, e: Ending): Text {
    if lines == [] then [] else lines[0] + EndingBytes(e) + Typed(lines[1..], e)
  }

  /** The commands the lines stand for; an empty line runs nothing. */
  function Commands(sh: Shell, lines: seq<Text>): seq<seq<Text>>
    requires AllTypable(sh, lines)
  {
    if lines == [] then []
    else (if lines[0] == [] then [] else [S.Split(lines[0], |lines[0]|).tokens]) + Commands(sh, lines[1..])
  }

  function Saved(log: L.Log, lines: seq<Text>): L.Log
    requires log.nav <= |log.records|
    decreases |lines|
  {
    if lines == [] then log
    else Saved(if lines[0] == [] then log else L.Save(log, lines[0], lines[0]), lines[1..])
  }

  /** An empty line with nothing stale, and no half of a line ending that `e` would complete. */
  predicate AtPrompt(ed: Editor, e: Ending) {
    && Valid(ed) && ed.before == [] && ed.after == [] && ed.stale == [] && !ed.escape
    && (ed.endl == 0 || (e == Cr && ed.endl == T.CR) || (e == Lf && ed.endl == T.LF))
  }

  lemma StepType(sh: Shell, ed: Editor, ch: byte)
    requires Valid(ed) && ed.after == [] && ed.stale == [] && !ed.escape
    requires !Control(sh, ch) && |ed.before| < LINE && (ed.before == [] ==> ch != SPACE)
    ensures Step(sh, ed, ch) == Effect(ed.(before := ed.before + [ch], endl := 0), [ch], [], Done)
  {
  }

  /** A first byte that runs nothing. */
  lemma ProcessMore(sh: Shell, ed: Editor, data: Text, ed': Editor)
    requires Valid(ed) && Valid(ed') && data != []
    requires var e := Step(sh, ed, data[0]); e.ed == ed' && e.ran == [] && e.status == Done
    ensures var r, r' := Process(sh, ed, data), Process(sh, ed', data[1..]);
            r.ed == r'.ed && r.ran == r'.ran && r.status == r'.status
  {
    assert [] + Process(sh, ed', data[1..]).ran == Process(sh, ed', data[1..]).ran;
  }

  /** `r` is done, ran nothing, and put `text` at the end of the line of `ed`. */
  predicate Appended(ed: Editor, text: Text, r: Effect) {
    && r.status == Done && r.ran == []
    && r.ed == ed.(before := ed.before + text, endl := if text == [] then ed.endl else 0)
  }

  lemma AppendedMore(ed: Editor, b: byte, text: Text, r: Effect)
    requires Appended(ed.(before := ed.before + [b], endl := 0), text, r)
    ensures Appended(ed, [b] + text, r)
  {
    assert ed.before + [b] + text == ed.before + ([b] + text);
  }

  /** Typing printable text at the end of the line appends it. */
  lemma {:induction false} TypeText(sh: Shell, ed: Editor, text: Text)
    requires Valid(ed) && ed.after == [] && ed.stale == [] && !ed.escape
    requires Printable(sh, text) && |ed.before| + |text| <= LINE
    requires ed.before == [] && text != [] ==> text[0] != SPACE
    ensures Appended(ed, text, Process(sh, ed, text))
    decreases |text|
  {
    if text == [] {
      assert ed.before + text == ed.before;
    } else {
      var ed' := ed.(before := ed.before + [text[0]], endl := 0);
      assert !Control(sh, text[0]);
      StepType(sh, ed, text[0]);
      StepValid(sh, ed, text[0]);
      TypeText(sh, ed', text[1..]);
      ProcessMore(sh, ed, text, ed');
      AppendedMore(ed, text[0], text[1..], Process(sh, ed', text[1..]));
      assert [text[0]] + text[1..] == text;
    }
  }

  /** What is left after Enter on `line`. */
  function Entered(ed: Editor, ch: byte): Editor
    requires ed.log.nav <= |ed.log.records|
  {
    var log := if ed.before == [] then ed.log else L.Save(ed.log, ed.before, ed.before);
    ed.(before := [], endl := ch, log := log)
  }

  lemma StepEnter(sh: Shell, ed: Editor, ch: byte)
    requires Valid(ed) && ed.after == [] && ed.stale == [] && !ed.escape && Typable(sh, ed.before)
    requires (ch == T.CR && ed.endl != T.LF) || (ch == T.LF && ed.endl != T.CR)
    ensures var r := Step(sh, ed, ch);
            && r.status == Done && r.ed == Entered(ed, ch)
            && r.ran == if ed.before == [] then [] else [S.Split(ed.before, |ed.before|).tokens]
  {
    assert ed.before + ed.after == ed.before && ed.before + ed.after + ed.stale == ed.before;
  }

  /** The bytes of a line ending act as one Enter. */
  lemma EndLine(sh: Shell, ed: Editor, e: Ending)
    requires Valid(ed) && ed.after == [] && ed.stale == [] && !ed.escape
    requires ed.endl == 0 || (e == Cr && ed.endl == T.CR) || (e == Lf && ed.endl == T.LF)
    requires Typable(sh, ed.before)
    ensures var r := Process(sh, ed, EndingBytes(e));
            && r.status == Done && AtPrompt(r.ed, e)
            && r.ran == (if ed.before == [] then [] else [S.Split(ed.before, |ed.before|).tokens])
            && r.ed.log == if ed.before == [] then ed.log else L.Save(ed.log, ed.before, ed.before)
  {
    var bytes := EndingBytes(e);
    var first := Entered(ed, bytes[0]);
    StepEnter(sh, ed, bytes[0]);
    StepValid(sh, ed, bytes[0]);
    ProcessOne(sh, ed, bytes[0]);
    if |bytes| == 2 {
      assert Step(sh, first, bytes[1]) == Quiet(first.(endl := 0));
      ProcessOne(sh, first, bytes[1]);
      ProcessConcat(sh, ed, [bytes[0]], [bytes[1]]);
      assert bytes == [bytes[0]] + [bytes[1]];
      assert Process(sh, ed, [bytes[0]]).ran + [] == Process(sh, ed, [bytes[0]]).ran;
    } else {
      assert bytes == [bytes[0]];
    }
  }

  lemma ProcessOne(sh: Shell, ed: Editor, b: byte)
    requires Valid(ed)
    ensures var e := Step(sh, ed, b);
            && Process(sh, ed, [b]).ed == e.ed && Process(sh, ed, [b]).status == e.status
            && Process(sh, ed, [b]).ran == e.ran && Process(sh, ed, [b]).out == e.out
  {
    var e := Step(sh, ed, b);
    StepValid(sh, ed, b);
    assert [b][1..] == [];
    assert Process(sh, e.ed, []) == Quiet(e.ed);
    assert e.ran + [] == e.ran && e.out + [] == e.out;
  }

  /** One line and its ending. */
  lemma TypedLine(sh: Shell, ed: Editor, line: Text, e: Ending)
    requires AtPrompt(ed, e) && Typable(sh, line)
    ensures var r := Process(sh, ed, line + EndingBytes(e));
            && r.status == Done && AtPrompt(r.ed, e)
            && r.ran == (if line == [] then [] else [S.Split(line, |line|).tokens])
            && r.ed.log == if line == [] then ed.log else L.Save(ed.log, line, line)
  {
    assert ed.before + line == line;
    TypeText(sh, ed, line);
    ProcessValid(sh, ed, line);
    var typed := Process(sh, ed, line);
    EndLine(sh, typed.ed, e);
    ProcessConcat(sh, ed, line, EndingBytes(e));
    assert typed.ran + Process(sh, typed.ed, EndingBytes(e)).ran == Process(sh, typed.ed, EndingBytes(e)).ran;
  }

  /** Typing lines runs their commands in order and saves them, and ends at the prompt. */
  lemma {:induction false} TypedLines(sh: Shell, ed: Editor, lines: seq<Text>, e: Ending)
    requires AtPrompt(ed, e) && AllTypable(sh, lines)
    ensures var r := Process(sh, ed, Typed(lines, e));
            && r.status == Done && AtPrompt(r.ed, e)
            && r.ran == Commands(sh, lines) && r.ed.log == Saved(ed.log, lines)
    decreases |lines|
  {
    if lines != [] {
      var first := lines[0] + EndingBytes(e);
      assert Typable(sh, lines[0]);
      TypedLine(sh, ed, lines[0], e);
      ProcessConcat(sh, ed, first, Typed(lines[1..], e));
      TypedLines(sh, Process(sh, ed, first).ed, lines[1..], e);
    }
  }

  /**
   Lines ended with CR, LF, CRLF or LFCR are the same to the shell: the same commands run,
   empty lines included, and the same lines are remembered.
   */
  lemma EndingsAgree(sh: Shell, ed: Editor, lines: seq<Text>, e: Ending, e': Ending)
    requires AtPrompt(ed, e) && ed.endl == 0 && AllTypable(sh, lines)
    ensures var r, r' := Process(sh, ed, Typed(lines, e)), Process(sh, ed, Typed(lines, e'));
            r.ran == r'.ran == Commands(sh, lines) && r.ed.log == r'.ed.log
  {
    TypedLines(sh, ed, lines, e);
    TypedLines(sh, ed, lines, e');
  }

  // ---------------------------------------------------------------------------
  // Stale bytes
  // ---------------------------------------------------------------------------

  /** Only cutting the line at the cursor leaves stale bytes behind. */
  lemma StaleOnlyFromKill(sh: Shell, ed: Editor, ch: byte)
    requires Valid(ed) && ed.stale == []
    ensures Step(sh, ed, ch).ed.stale != [] ==> !ed.escape && ch == 11 && ed.after != []
    ensures !ed.escape && ch == 11 ==> Step(sh, ed, ch).ed.stale == ed.after
  {
    if ed.escape && EscapeByte(ed.code, ch).Complete? {
      StaleCommand(sh, ed.(escape := false), EscapeByte(ed.code, ch).command);
    } else if !ed.escape && Control(sh, ch) && ControlCommand(ch).Some? {
      StaleCommand(sh, ed.(endl := 0), ControlCommand(ch).value);
    }
    assert ed.after + [] == ed.after;
  }

  lemma StaleCommand(sh: Shell, ed: Editor, c: Command)
    requires Valid(ed) && ed.stale == []
    ensures c != KillForwardKey ==> Perform(sh, ed, c).ed.stale == []
  {
  }

  /**
   Enter on a quote-free command of at most `TOKENS` tokens: it runs as typed exactly when the
   stale bytes are harmless; when they go on without a space the last token is lost.
   */
  lemma EnterWithStale(sh: Shell, ed: Editor)
    requires Valid(ed) && ed.Line() != [] && |ed.Line()| != L.RING - 1
    requires S.QuoteFree(ed.Line()) && S.QuoteFree(ed.stale)
    requires S.Split(ed.Line(), |ed.Line()|).Words?
    ensures var ts, ran := S.Split(ed.Line(), |ed.Line()|).tokens, Enter(sh, ed).ran;
            && (ran == [ts] <==> S.HarmlessAfter(ed.Line(), ed.stale, |ts|))
            && (ed.Line()[|ed.Line()| - 1] != SPACE && ed.stale != [] && ed.stale[0] != SPACE ==>
                  ran == [ts[..|ts| - 1]])
  {
    S.SplitWithStale(ed.Line(), ed.stale);
  }

  // ---------------------------------------------------------------------------
  // Cutting the end of a line from the keyboard
  // ---------------------------------------------------------------------------

  const DEL: byte := 127
  const CTRL_K: byte := 11

  /** What the terminal sends for the left arrow. */
  const ARROW: Text := [T.ESC, T.BRACKET, 68]

  function Arrows(n: nat): Text {
    if n == 0 then [] else ARROW + Arrows(n - 1)
  }

  /** What the firmware makes of a byte before the editor sees it: ^B and ^H become DEL. */
  function Normalised(s: Text): (t: Text)
    ensures |t| == |s|
  {
    seq(|s|, i requires 0 <= i < |s| => if s[i] == 2 || s[i] == T.BS then DEL else s[i])
  }

  predicate Passes(s: Text) {
    forall i :: 0 <= i < |s| ==> s[i] != 2 && s[i] != T.BS
  }

  lemma {:induction false} ArrowsPass(n: nat)
    ensures Passes(Arrows(n))
  {
    if n > 0 {
      ArrowsPass(n - 1);
      assert ARROW[0] == T.ESC && ARROW[1] == T.BRACKET && ARROW[2] == 68;
    }
  }

  lemma StepArrow(sh: Shell, ed: Editor, front: Text, b: byte)
    requires Valid(ed) && ed.before == front + [b] && !ed.escape
    ensures var e0 := Step(sh, ed, T.ESC); var e1 := Step(sh, e0.ed, T.BRACKET); var e2 := Step(sh, e1.ed, 68);
            && e0.status == e1.status == e2.status == Done && e0.ran == e1.ran == e2.ran == []
            && e2.ed == ed.(before := front, after := [b] + ed.after, endl := 0, code := Bracket)
  {
  }

  /** The left arrow moves the cursor back by one. */
  lemma ArrowLeft(sh: Shell, ed: Editor, front: Text, b: byte)
    requires Valid(ed) && ed.before == front + [b] && !ed.escape
    ensures var e := Process(sh, ed, ARROW);
            && e.status == Done && e.ran == []
            && e.ed == ed.(before := front, after := [b] + ed.after, endl := 0, code := Bracket)
  {
    var e0 := Step(sh, ed, T.ESC);
    StepValid(sh, ed, T.ESC);
    var e1 := Step(sh, e0.ed, T.BRACKET);
    StepValid(sh, e0.ed, T.BRACKET);
    StepArrow(sh, ed, front, b);
    var two: Text := [T.BRACKET, 68];
    assert ARROW[1..] == two && two[1..] == [68];
    ProcessOne(sh, e1.ed, 68);
  }

  /** `|back|` left arrows move the cursor in front of `back`. */
  lemma {:induction false} MoveBack(sh: Shell, ed: Editor, front: Text, back: Text)
    requires Valid(ed) && ed.before == front + back && !ed.escape
    ensures var e := Process(sh, ed, Arrows(|back|));
            && e.status == Done && e.ran == [] && Valid(e.ed) && !e.ed.escape
            && e.ed.before == front && e.ed.after == back + ed.after && e.ed.stale == ed.stale && e.ed.log == ed.log
    decreases |back|
  {
    ProcessValid(sh, ed, Arrows(|back|));
    if back == [] {
      assert front + back == front && back + ed.after == ed.after;
    } else {
      var rest, b := back[..|back| - 1], back[|back| - 1];
      assert back == rest + [b];
      assert ed.before == (front + rest) + [b];
      ArrowLeft(sh, ed, front + rest, b);
      ProcessConcat(sh, ed, ARROW, Arrows(|rest|));
      MoveBack(sh, Process(sh, ed, ARROW).ed, front, rest);
      assert rest + ([b] + ed.after) == back + ed.after;
    }
  }

  /** The keys that type a command and cut an end of it away. */
  function CutKeys(kept: Text, cut: Text): Text {
    kept + cut + Arrows(|cut|) + [CTRL_K]
  }

  /** Typing `kept + cut` and cutting `cut` away leaves it behind the line. */
  lemma TypeAndCut(sh: Shell, ed: Editor, kept: Text, cut: Text)
    requires AtPrompt(ed, Cr)
    requires Printable(sh, kept + cut) && |kept + cut| <= L.RING - 2 && kept != [] && kept[0] != SPACE
    ensures var e := Process(sh, ed, CutKeys(kept, cut));
            && e.status == Done && Valid(e.ed) && !e.ed.escape && e.ed.endl == 0
            && e.ed.before == kept && e.ed.after == [] && e.ed.stale == cut && e.ed.log == ed.log
  {
    var text, back := kept + cut, Arrows(|cut|);
    assert ed.before + text == text;
    TypeText(sh, ed, text);
    ProcessValid(sh, ed, text);
    var typed := Process(sh, ed, text).ed;
    MoveBack(sh, typed, kept, cut);
    ProcessConcat(sh, ed, text, back);
    var moved := Process(sh, typed, back).ed;
    assert cut + [] == cut;
    ProcessOne(sh, moved, CTRL_K);
    ProcessConcat(sh, ed, text + back, [CTRL_K]);
    StepValid(sh, moved, CTRL_K);
  }

  /** These keys reach the editor as they are. */
  lemma CutKeysPass(sh: Shell, kept: Text, cut: Text)
    requires Printable(sh, kept + cut)
    ensures Normalised(CutKeys(kept, cut)) == CutKeys(kept, cut)
  {
    ArrowsPass(|cut|);
    forall i | 0 <= i < |kept + cut| ensures (kept + cut)[i] != 2 && (kept + cut)[i] != T.BS {
      assert !Control(sh, (kept + cut)[i]);
    }
    assert Passes(CutKeys(kept, cut));
  }

  /**
   Typing a command and an end of it that is then cut away with the left arrow and ^K, keys
   the firmware passes on: Enter runs the command as shown exactly when the cut end is harmless.
   */
  lemma CutAndEnter(sh: Shell, ed: Editor, kept: Text, cut: Text)
    requires AtPrompt(ed, Cr)
    requires Printable(sh, kept + cut) && S.QuoteFree(kept) && S.QuoteFree(cut) && |kept + cut| <= L.RING - 2
    requires kept != [] && kept[0] != SPACE
    requires S.Split(kept, |kept|).Words?
    ensures Normalised(CutKeys(kept, cut)) == CutKeys(kept, cut)
    ensures var ts, e := S.Split(kept, |kept|).tokens, Process(sh, ed, CutKeys(kept, cut));
            && e.status == Done && e.ed.Line() == kept && Valid(e.ed)
            && (Enter(sh, e.ed).ran == [ts] <==> S.HarmlessAfter(kept, cut, |ts|))
            && (kept[|kept| - 1] != SPACE && cut != [] && cut[0] != SPACE ==> Enter(sh, e.ed).ran == [ts[..|ts| - 1]])
  {
    var killed := Process(sh, ed, CutKeys(kept, cut)).ed;
    CutKeysPass(sh, kept, cut);
    TypeAndCut(sh, ed, kept, cut);
    assert killed.Line() == kept;
    EnterWithStale(sh, killed);
  }

  // ---------------------------------------------------------------------------
  // What the history makes of a line whose end was cut
  // ---------------------------------------------------------------------------

  /** Enter after the cut: the line shown is saved, but compared with the bytes cut away still behind it. */
  lemma CutIsSaved(sh: Shell, ed: Editor, kept: Text, cut: Text)
    requires AtPrompt(ed, Cr)
    requires Printable(sh, kept + cut) && |kept + cut| <= L.RING - 2 && kept != [] && kept[0] != SPACE
    ensures Process(sh, ed, CutKeys(kept, cut) + [T.CR]).ed.log == L.Save(ed.log, kept, kept + cut)
  {
    TypeAndCut(sh, ed, kept, cut);
    var killed := Process(sh, ed, CutKeys(kept, cut)).ed;
    ProcessConcat(sh, ed, CutKeys(kept, cut), [T.CR]);
    ProcessOne(sh, killed, T.CR);
    assert killed.Line() == kept && killed.CLine() == kept + cut;
  }

  /**
   The rule against repeats from the keyboard, with keys the firmware passes on: of a line whose
   end was cut away, one that repeats the newest record is stored again, and one that does not is
   dropped when the newest record is the line with what was cut away.
   */
  lemma CutBreaksRepeatRule(sh: Shell, ed: Editor, kept: Text, cut: Text)
    requires AtPrompt(ed, Cr) && ed.log.records != [] && ed.log.nav <= 1
    requires Printable(sh, kept + cut) && |kept + cut| <= L.RING - 2 && kept != [] && kept[0] != SPACE && cut != []
    ensures Normalised(CutKeys(kept, cut)) == CutKeys(kept, cut)
    ensures var log := Process(sh, ed, CutKeys(kept, cut) + [T.CR]).ed.log;
            && (R.Newest(ed.log) == kept ==> log == L.Log(L.Evict(ed.log.records, |kept|) + [kept], 0))
            && (R.Newest(ed.log) == kept + cut ==> log == ed.log.(nav := 0))
  {
    CutKeysPass(sh, kept, cut);
    CutIsSaved(sh, ed, kept, cut);
    R.ComparedIs(ed.log);
    assert |kept + cut| > |kept|;
  }

  /** A first line typed, and a second one whose end is cut away. */
  lemma TypedThenCut(sh: Shell, ed: Editor, line: Text, kept: Text, cut: Text)
    requires AtPrompt(ed, Cr) && Typable(sh, line) && line != []
    requires Printable(sh, kept + cut) && |kept + cut| <= L.RING - 2 && kept != [] && kept[0] != SPACE
    ensures Process(sh, ed, line + [T.CR] + (CutKeys(kept, cut) + [T.CR])).ed.log ==
            L.Save(L.Save(ed.log, line, line), kept, kept + cut)
  {
    TypedLine(sh, ed, line, Cr);
    CutIsSaved(sh, Process(sh, ed, line + [T.CR]).ed, kept, cut);
    ProcessConcat(sh, ed, line + [T.CR], CutKeys(kept, cut) + [T.CR]);
  }

  /** A line of one word is split into it. */
  lemma WordOnce(w: Text)
    requires w != [] && S.SpaceFree(w) && S.QuoteFree(w)
    ensures S.Split(w, |w|) == S.Words([w])
  {
    S.SplitWord(w, |w|, 0);
    S.WordIs(w, w);
  }

  /** Saved on an empty history, and then its own front, or itself, with `cut` behind it. */
  lemma SavedTwice(line: Text, kept: Text, cut: Text)
    requires L.IsRecord(line) && |line| <= 2 && 1 <= |kept| <= 2
    ensures L.Save(L.Save(L.EMPTY, line, line), kept, kept + cut).records ==
            if kept + cut == line then [line] else [line, kept]
  {
    assert [line][1..] == [];
    assert L.Size([line]) == 1 + |line| + L.Size([]);
    assert [] + [line] == [line] && [line] + [kept] == [line, kept];
  }

  /** From power-on: `a`, then `ab` cut to `a`, is stored twice; `ab`, then `ab` cut to `a`, drops the new line. */
  lemma CutRepeatExample(sh: Shell)
    ensures var a, b, ab: Text := [97], [98], [97, 98];
            var cutKeys := CutKeys(a, b) + [T.CR];
            && Process(sh, START, a + [T.CR] + cutKeys).ed.log.records == [a, a]
            && Process(sh, START, ab + [T.CR] + cutKeys).ed.log.records == [ab]
  {
    var a, b, ab: Text := [97], [98], [97, 98];
    assert a + b == ab;
    WordOnce(a);
    WordOnce(ab);
    TypedThenCut(sh, START, a, a, b);
    TypedThenCut(sh, START, ab, a, b);
    SavedTwice(a, a, b);
    SavedTwice(ab, a, b);
  }

  // ---------------------------------------------------------------------------
  // A line that the history cannot take
  // ---------------------------------------------------------------------------

  /** Typing a line and Enter hangs exactly when the line has `RING - 1` characters. */
  lemma TypedLineHangs(sh: Shell, ed: Editor, text: Text)
    requires AtPrompt(ed, Cr)
    requires Printable(sh, text) && |text| <= LINE && (text != [] ==> text[0] != SPACE)
    ensures Process(sh, ed, text + [T.CR]).status == Hung <==> |text| == L.RING - 1
  {
    assert ed.before + text == text;
    TypeText(sh, ed, text);
    ProcessValid(sh, ed, text);
    var typed := Process(sh, ed, text).ed;
    assert typed.Line() == text;
    ProcessOne(sh, typed, T.CR);
    ProcessConcat(sh, ed, text, [T.CR]);
    NoOtherHang(sh, S.Split(typed.CLine(), |text|));
  }

  lemma NoOtherHang(sh: Shell, words: S.Words)
    ensures RunWords(sh, words).status != Hung
  {
  }

  // ---------------------------------------------------------------------------
  // Chunks
  // ---------------------------------------------------------------------------

  /** A space typed at an empty line drops everything that came in the same chunk after it. */
  lemma LeadingSpaceDrops(sh: Shell, ed: Editor, rest: Text)
    requires Valid(ed) && ed.Line() == [] && !ed.escape
    ensures Process(sh, ed, [SPACE] + rest) == Effect(ed.(endl := 0), [], [], Skipped)
    ensures Session(sh, ed, [[SPACE], rest]).ran == Process(sh, ed.(endl := 0), rest).ran
  {
    var next := ed.(endl := 0);
    ProcessOne(sh, ed, SPACE);
    var chunks := [[SPACE], rest];
    assert chunks[1..] == [rest] && [rest][1..] == [];
    var r := Call(sh, next, rest);
    ProcessValid(sh, next, rest);
    assert Session(sh, r.ed, []) == Quiet(r.ed);
    assert r.ran + [] == r.ran && [] + r.ran == r.ran;
  }

  /** Printable text never empties a line. */
  lemma {:induction false} PrintableStays(sh: Shell, ed: Editor, text: Text)
    requires Valid(ed) && !ed.escape && ed.Line() != [] && Printable(sh, text)
    ensures Process(sh, ed, text).ed.Line() != []
    decreases |text|
  {
    if text != [] {
      var e := Step(sh, ed, text[0]);
      StepValid(sh, ed, text[0]);
      assert !Control(sh, text[0]);
      if e.status == Done {
        PrintableStays(sh, e.ed, text[1..]);
      }
    }
  }

  /** The text without the spaces in front of it. */
  function Strip(s: Text): (t: Text)
    ensures |t| <= |s| && (t != [] ==> t[0] != SPACE)
  {
    if s != [] && s[0] == SPACE then Strip(s[1..]) else s
  }

  lemma {:induction false} StripPrintable(sh: Shell, s: Text)
    requires Printable(sh, s)
    ensures Printable(sh, Strip(s))
  {
    if s != [] && s[0] == SPACE {
      StripPrintable(sh, s[1..]);
    }
  }

  /**
   Skipping the spaces in front of a command is to leave the command: in a chunk of printable
   text that starts with a space it does exactly when there is nothing but spaces.
   */
  lemma LeadingSpaceExactly(sh: Shell, ed: Editor, chunk: Text)
    requires Valid(ed) && ed.Line() == [] && !ed.escape
    requires Printable(sh, chunk) && chunk != [] && chunk[0] == SPACE
    ensures Process(sh, ed, chunk).ed == Process(sh, ed.(endl := 0), Strip(chunk)).ed <==> Strip(chunk) == []
  {
    var next, text := ed.(endl := 0), Strip(chunk);
    assert chunk == [SPACE] + chunk[1..];
    LeadingSpaceDrops(sh, ed, chunk[1..]);
    StripPrintable(sh, chunk);
    if text != [] {
      assert !Control(sh, text[0]);
      var e := Step(sh, next, text[0]);
      StepValid(sh, next, text[0]);
      PrintableStays(sh, e.ed, text[1..]);
    }
  }

  /** With Enter in the same chunk: what runs is the same exactly when there is no command to lose. */
  lemma LeadingSpaceLoses(sh: Shell, ed: Editor, chunk: Text, e: Ending)
    requires AtPrompt(ed, e) && chunk != [] && chunk[0] == SPACE && Typable(sh, Strip(chunk))
    ensures Process(sh, ed, chunk + EndingBytes(e)).ran == Process(sh, ed, Strip(chunk) + EndingBytes(e)).ran
       <==> Strip(chunk) == []
  {
    assert chunk + EndingBytes(e) == [SPACE] + (chunk[1..] + EndingBytes(e));
    LeadingSpaceDrops(sh, ed, chunk[1..] + EndingBytes(e));
    TypedLine(sh, ed, Strip(chunk), e);
  }

  /** One space or two, a letter and Enter: in one chunk nothing runs, without the space the command does. */
  lemma LeadingSpaceExample(sh: Shell)
    ensures Process(sh, START, [SPACE, 97, T.CR]).ran == [] && Process(sh, START, [97, T.CR]).ran == [[[97]]]
    ensures Process(sh, START, [SPACE, SPACE, 97, T.CR]).ran == []
    ensures Session(sh, START, [[SPACE], [97, T.CR]]).ran == [[[97]]]
  {
    var keys, a: Text := [97, T.CR], [97];
    assert [SPACE, 97, T.CR] == [SPACE] + keys && [SPACE, SPACE, 97, T.CR] == [SPACE] + ([SPACE] + keys);
    LeadingSpaceDrops(sh, START, keys);
    LeadingSpaceDrops(sh, START, [SPACE] + keys);
    WordOnce(a);
    assert keys == a + EndingBytes(Cr);
    TypedLine(sh, START, a, Cr);
  }
}
