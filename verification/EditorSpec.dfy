/**
 The line editor on values: what each input byte does to the line, the history and the
 terminal. The line is a gap: the text before the cursor and the text after it. The class
 `LineEditor` refines these functions with the firmware's buffers.
 */
module EditorSpec {
  import opened Bytes
  import L = HistoryLog
  import S = Splitter
  import T = Terminal

  /** Longest line. */
  const LINE: nat := 128

  datatype Code = Bracket | Home | End | Del

  /**
   `stale` is what a C reader of the line buffer sees after the line: nothing when a NUL
   follows the line, and the bytes up to the next NUL when none does.
   */
  datatype Editor = Editor(
    before: Text, after: Text, stale: Text,
    log: L.Log,
    escape: bool, code: Code,
    endl: byte)
  {
    function Line(): Text {
      before + after
    }

    /** The C string at the start of the line buffer. */
    function CLine(): Text {
      before + after + stale
    }
  }

  /**
   What is around the editor: its prompt, what a command prints, what an interrupt prints, and
   whether `char` is signed, so that bytes from 128 on compare as negative.
   */
  datatype Shell = Shell(prompt: Text, reply: seq<Text> -> Text, interrupt: Text, signedChar: bool)

  /** The editor's test for a control character. */
  predicate Control(sh: Shell, ch: byte) {
    T.IsControl(ch) || (sh.signedChar && ch >= 128)
  }

  /** Text that is inserted as it is typed. */
  predicate Printable(sh: Shell, s: Text) {
    forall i :: 0 <= i < |s| ==> !Control(sh, s[i])
  }

  /** `Skipped`: a leading space; reported as success. `Hung`: the call never returns. */
  datatype Status = Done | Skipped | BadParam | LineFull | TooManyTokens | Hung

  datatype Effect = Effect(ed: Editor, out: Text, ran: seq<seq<Text>>, status: Status)

  const START := Editor([], [], [], L.EMPTY, false, Bracket, 0)

  const ERROR: Text := [69, 82, 82, 79, 82, 58, 32, 116, 111, 111, 32,
                        109, 97, 110, 121, 32, 116, 111, 107, 101, 110, 115]

  function Take(s: Text, n: nat): Text {
    if n <= |s| then s[..n] else s
  }

  predicate Valid(ed: Editor) {
    && T.Graphic(ed.before) && T.Graphic(ed.after) && T.Graphic(ed.stale)
    && |ed.before| + |ed.after| + |ed.stale| <= LINE
    && L.Valid(ed.log)
    && (forall i :: 0 <= i < |ed.log.records| ==> T.Graphic(ed.log.records[i]))
  }

  // ---------------------------------------------------------------------------
  // Output
  // ---------------------------------------------------------------------------

  /** The line from column `pos` on, everything after it erased, and the cursor put back. */
  function PrintLine(sh: Shell, ed: Editor, pos: nat, reset: bool): Text
    requires pos <= |ed.before| + |ed.after|
  {
    (if reset then [T.CR] + T.Move(|sh.prompt| + pos) else [])
    + ed.Line()[pos..] + T.ERASE + T.Move(-|ed.after|)
  }

  function Quiet(ed: Editor): Effect {
    Effect(ed, [], [], Done)
  }

  function Prints(ed: Editor, out: Text): Effect {
    Effect(ed, out, [], Done)
  }

  // ---------------------------------------------------------------------------
  // Editing
  // ---------------------------------------------------------------------------

  function Insert(sh: Shell, ed: Editor, ch: byte): Effect {
    if |ed.before| + |ed.after| + 1 > LINE then Effect(ed, [], [], LineFull)
    else
      var ed' := ed.(before := ed.before + [ch], stale := []);
      Prints(ed', if ed.after == [] then [ch] else PrintLine(sh, ed', |ed.before|, false))
  }

  /** Removes `n` bytes before the cursor. */
  function RemoveBack(ed: Editor, n: nat): Editor
    requires n <= |ed.before|
  {
    ed.(before := ed.before[..|ed.before| - n], stale := Take(ed.stale, n))
  }

  /** Removes the byte under the cursor. */
  function RemoveForward(ed: Editor): Editor {
    if ed.after == [] then ed else ed.(after := ed.after[1..], stale := Take(ed.stale, 1))
  }

  function Rubout(sh: Shell, ed: Editor): Effect {
    if ed.before == [] then Quiet(ed)
    else
      var ed' := RemoveBack(ed, 1);
      Prints(ed', if ed'.after == [] then T.RUBOUT else PrintLine(sh, ed', |ed'.before|, true))
  }

  function Delete(sh: Shell, ed: Editor): Effect {
    var ed' := RemoveForward(ed);
    Prints(ed', PrintLine(sh, ed', |ed'.before|, false))
  }

  function KillBack(sh: Shell, ed: Editor): Effect {
    var ed' := if ed.before == [] then ed else RemoveBack(ed, |ed.before|);
    Prints(ed', PrintLine(sh, ed', 0, true))
  }

  /** Cuts the line at the cursor; the cut text stays in the buffer. */
  function KillForward(ed: Editor): Effect {
    Prints(ed.(after := [], stale := ed.after + ed.stale), T.ERASE)
  }

  function ToStart(ed: Editor): Effect {
    Prints(ed.(before := [], after := ed.Line()), T.Move(-|ed.before|))
  }

  function ToEnd(ed: Editor): Effect {
    Prints(ed.(before := ed.Line(), after := []), T.Move(|ed.after|))
  }

  function Right(ed: Editor): Effect {
    if ed.after == [] then Quiet(ed)
    else Prints(ed.(before := ed.before + [ed.after[0]], after := ed.after[1..]), T.Move(1))
  }

  function Left(ed: Editor): Effect {
    if ed.before == [] then Quiet(ed)
    else
      var n := |ed.before| - 1;
      Prints(ed.(before := ed.before[..n], after := [ed.before[n]] + ed.after), T.Move(-1))
  }

  function Recall(sh: Shell, ed: Editor, dir: L.Direction): Effect
    requires ed.log.nav <= |ed.log.records|
  {
    var log := L.Navigate(ed.log, dir);
    var ed' := ed.(before := L.Shown(log), after := [], stale := [], log := log);
    Prints(ed', PrintLine(sh, ed', 0, true))
  }

  function Redraw(sh: Shell, ed: Editor): Effect {
    Prints(ed, T.NEWLINE + sh.prompt + PrintLine(sh, ed, 0, false))
  }

  function ClearScreen(sh: Shell, ed: Editor): Effect {
    Prints(ed, T.CLEAR + T.HOME + sh.prompt + PrintLine(sh, ed, 0, false))
  }

  // ---------------------------------------------------------------------------
  // Enter
  // ---------------------------------------------------------------------------

  /** What running a line prints, runs and reports. */
  datatype Outcome = Outcome(out: Text, ran: seq<seq<Text>>, status: Status)

  function RunWords(sh: Shell, words: S.Words): Outcome {
    match words
    case Words(ts) => Outcome(sh.reply(ts), [ts], Done)
    case TooMany => Outcome(ERROR + T.NEWLINE, [], TooManyTokens)
  }

  /** The line saved, split and run, and a prompt for the next one. */
  function Enter(sh: Shell, ed: Editor): Effect
    requires ed.log.nav <= |ed.log.records|
  {
    var line := ed.Line();
    if |line| == L.RING - 1 then Effect(ed, T.NEWLINE, [], Hung)
    else
      var log := if line == [] then ed.log else L.Save(ed.log, line, ed.CLine());
      var run := if line == [] then Outcome([], [], Done) else RunWords(sh, S.Split(ed.CLine(), |line|));
      Effect(ed.(before := [], after := [], stale := [], log := log),
             T.NEWLINE + run.out + sh.prompt, run.ran, run.status)
  }

  /** CR or LF: the second of a pair of different ones is ignored. */
  function LineEnd(sh: Shell, ed: Editor, ch: byte): Effect
    requires ed.log.nav <= |ed.log.records|
  {
    if ed.endl == (if ch == T.CR then T.LF else T.CR) then Quiet(ed.(endl := 0))
    else Enter(sh, ed.(endl := ch))
  }

  // ---------------------------------------------------------------------------
  // Keys
  // ---------------------------------------------------------------------------

  datatype Command =
    | RuboutKey | DeleteKey | KillBackKey | KillForwardKey
    | StartKey | EndKey | RightKey | LeftKey
    | OlderKey | NewerKey | RedrawKey | ClearKey

  function Perform(sh: Shell, ed: Editor, c: Command): Effect
    requires ed.log.nav <= |ed.log.records|
  {
    match c
    case RuboutKey => Rubout(sh, ed)
    case DeleteKey => Delete(sh, ed)
    case KillBackKey => KillBack(sh, ed)
    case KillForwardKey => KillForward(ed)
    case StartKey => ToStart(ed)
    case EndKey => ToEnd(ed)
    case RightKey => Right(ed)
    case LeftKey => Left(ed)
    case OlderKey => Recall(sh, ed, L.Up)
    case NewerKey => Recall(sh, ed, L.Down)
    case RedrawKey => Redraw(sh, ed)
    case ClearKey => ClearScreen(sh, ed)
  }

  /** The command a control character stands for. */
  function ControlCommand(ch: byte): Option<Command> {
    if ch == 21 then Some(KillBackKey)                      // ^U
    else if ch == 11 then Some(KillForwardKey)              // ^K
    else if ch == 5 then Some(EndKey)                       // ^E
    else if ch == 1 then Some(StartKey)                     // ^A
    else if ch == 6 then Some(RightKey)                     // ^F
    else if ch == 2 then Some(LeftKey)                      // ^B
    else if ch == 16 then Some(OlderKey)                    // ^P
    else if ch == 14 then Some(NewerKey)                    // ^N
    else if ch == 127 || ch == T.BS then Some(RuboutKey)    // DEL, ^H
    else if ch == 4 then Some(DeleteKey)                    // ^D
    else if ch == 18 then Some(RedrawKey)                   // ^R
    else if ch == 12 then Some(ClearKey)                    // ^L
    else None
  }

  function ControlKey(sh: Shell, ed: Editor, ch: byte): Effect
    requires ed.log.nav <= |ed.log.records|
  {
    if ch == 9 then Effect(ed, [], [], BadParam)            // Tab, with no completion callback
    else if ch == T.ESC then Quiet(ed.(escape := true))
    else if ch == 3 then Prints(ed, sh.interrupt)           // ^C
    else match ControlCommand(ch)
      case Some(c) => Perform(sh, ed, c)
      case None => Quiet(ed)
  }

  datatype Sequence = More(code: Code) | Complete(command: Command) | Unknown

  /** What a byte makes of an escape sequence whose last code was `code`. */
  function EscapeByte(code: Code, ch: byte): Sequence {
    if ch == T.BRACKET then More(Bracket)
    else if ch == 127 then Complete(DeleteKey)
    else if code == Bracket then
      if ch == 65 then Complete(OlderKey)
      else if ch == 66 then Complete(NewerKey)
      else if ch == 67 then Complete(RightKey)
      else if ch == 68 then Complete(LeftKey)
      else if ch == 55 || ch == 49 then More(Home)
      else if ch == 56 || ch == 52 then More(End)
      else if ch == 51 then More(Del)
      else Unknown
    else if ch == 126 then
      match code
      case Home => Complete(StartKey)
      case End => Complete(EndKey)
      case Del => Complete(DeleteKey)
      case Bracket => Unknown
    else Unknown
  }

  function EscapeKey(sh: Shell, ed: Editor, ch: byte): Effect
    requires ed.log.nav <= |ed.log.records|
  {
    match EscapeByte(ed.code, ch)
    case More(code) => Quiet(ed.(code := code))
    case Complete(c) => Perform(sh, ed.(escape := false), c)
    case Unknown => Quiet(ed.(escape := false))
  }

  function Step(sh: Shell, ed: Editor, ch: byte): Effect
    requires ed.log.nav <= |ed.log.records|
  {
    if ed.escape then EscapeKey(sh, ed, ch)
    else if ch == T.CR || ch == T.LF then LineEnd(sh, ed, ch)
    else
      var ed' := ed.(endl := 0);
      if Control(sh, ch) then ControlKey(sh, ed', ch)
      else if ch == SPACE && ed.Line() == [] then Effect(ed', [], [], Skipped)
      else Insert(sh, ed', ch)
  }

  // ---------------------------------------------------------------------------
  // Steps keep the editor valid
  // ---------------------------------------------------------------------------

  lemma SaveKeeps(log: L.Log, line: Text, cstr: Text)
    requires L.Valid(log) && (forall i :: 0 <= i < |log.records| ==> T.Graphic(log.records[i]))
    requires L.IsRecord(line) && T.Graphic(line) && |line| != L.RING - 1
    ensures var log' := L.Save(log, line, cstr);
            L.Valid(log') && forall i :: 0 <= i < |log'.records| ==> T.Graphic(log'.records[i])
  {
    if |line| <= L.RING - 2 {
      EvictKeeps(log.records, |line|);
      L.FlatAppend(L.Evict(log.records, |line|), line);
    }
  }

  lemma {:induction false} EvictKeeps(rs: seq<Text>, len: nat)
    requires len <= L.RING - 2
    ensures var kept := L.Evict(rs, len);
            L.Size(kept) + len + 1 <= L.RING && forall i :: 0 <= i < |kept| ==> kept[i] in rs
  {
    if rs != [] && L.Size(rs) + len + 1 > L.RING {
      EvictKeeps(rs[1..], len);
    }
  }

  lemma ShownShort(log: L.Log)
    requires L.Valid(log)
    ensures |L.Shown(log)| <= L.RING - 2
  {
    if log.nav > 0 {
      L.OffsetNext(log.records, |log.records| - log.nav);
    }
  }

  lemma RemoveForwardValid(ed: Editor)
    requires Valid(ed)
    ensures Valid(RemoveForward(ed))
  {
  }

  lemma KillForwardValid(ed: Editor)
    requires Valid(ed)
    ensures Valid(KillForward(ed).ed)
  {
  }

  /** The cursor keys. */
  lemma CursorValid(sh: Shell, ed: Editor, c: Command)
    requires Valid(ed) && (c.StartKey? || c.EndKey? || c.RightKey? || c.LeftKey?)
    ensures Valid(Perform(sh, ed, c).ed)
  {
  }

  lemma RecallValid(sh: Shell, ed: Editor, dir: L.Direction)
    requires Valid(ed) && dir != L.Stay
    ensures Valid(Recall(sh, ed, dir).ed)
  {
    ShownShort(L.Navigate(ed.log, dir));
  }

  lemma RemoveBackValid(ed: Editor, n: nat)
    requires Valid(ed) && n <= |ed.before|
    ensures Valid(RemoveBack(ed, n))
  {
  }

  lemma PerformValid(sh: Shell, ed: Editor, c: Command)
    requires Valid(ed)
    ensures Valid(Perform(sh, ed, c).ed)
  {
    match c {
      case RuboutKey => if ed.before != [] { RemoveBackValid(ed, 1); }
      case DeleteKey => RemoveForwardValid(ed);
      case KillBackKey => RemoveBackValid(ed, |ed.before|);
      case KillForwardKey => KillForwardValid(ed);
      case OlderKey => RecallValid(sh, ed, L.Up);
      case NewerKey => RecallValid(sh, ed, L.Down);
      case RedrawKey =>
      case ClearKey =>
      case _ => CursorValid(sh, ed, c);
    }
  }

  lemma RecallFacts(sh: Shell, ed: Editor, dir: L.Direction)
    requires Valid(ed) && dir != L.Stay
    ensures var e, shown := Recall(sh, ed, dir).ed, L.Shown(L.Navigate(ed.log, dir));
            && Valid(e) && e.CLine() == shown && |e.before| == |shown| < LINE && e.after == [] && NulFree(shown)
            && e.log == L.Navigate(ed.log, dir) && e.escape == ed.escape && e.code == ed.code && e.endl == ed.endl
  {
    PerformValid(sh, ed, if dir == L.Up then OlderKey else NewerKey);
    ShownShort(L.Navigate(ed.log, dir));
  }

  lemma PerformKeeps(sh: Shell, ed: Editor, c: Command)
    requires ed.log.nav <= |ed.log.records|
    ensures var e := Perform(sh, ed, c);
            && e.ed.escape == ed.escape && e.ed.code == ed.code && e.ed.endl == ed.endl
            && e.ran == [] && e.status == Done
  {
  }

  /** `e'` is `e` outside an escape sequence. */
  predicate Unescaped(e: Effect, e': Effect) {
    e' == e.(ed := e.ed.(escape := false))
  }

  lemma RemovalEscape(sh: Shell, ed: Editor)
    ensures var ed' := ed.(escape := false);
            && Unescaped(Rubout(sh, ed), Rubout(sh, ed')) && Unescaped(Delete(sh, ed), Delete(sh, ed'))
            && Unescaped(KillBack(sh, ed), KillBack(sh, ed'))
  {
  }

  lemma CursorEscape(ed: Editor)
    ensures var ed' := ed.(escape := false);
            && Unescaped(ToStart(ed), ToStart(ed')) && Unescaped(ToEnd(ed), ToEnd(ed'))
            && Unescaped(Left(ed), Left(ed')) && Unescaped(Right(ed), Right(ed'))
  {
  }

  lemma PrintingEscape(sh: Shell, ed: Editor)
    requires ed.log.nav <= |ed.log.records|
    ensures var ed' := ed.(escape := false);
            && Unescaped(Recall(sh, ed, L.Up), Recall(sh, ed', L.Up))
            && Unescaped(Recall(sh, ed, L.Down), Recall(sh, ed', L.Down))
            && Unescaped(Redraw(sh, ed), Redraw(sh, ed')) && Unescaped(ClearScreen(sh, ed), ClearScreen(sh, ed'))
  {
  }

  /** No command looks at the escape flag. */
  lemma PerformEscape(sh: Shell, ed: Editor, c: Command)
    requires ed.log.nav <= |ed.log.records|
    ensures Unescaped(Perform(sh, ed, c), Perform(sh, ed.(escape := false), c))
  {
    RemovalEscape(sh, ed);
    CursorEscape(ed);
    PrintingEscape(sh, ed);
  }

  /** Only the end of a line runs a command. */
  lemma StepNoRun(sh: Shell, ed: Editor, ch: byte)
    requires ed.log.nav <= |ed.log.records| && (ed.escape || !(ch == T.CR || ch == T.LF))
    ensures Step(sh, ed, ch).ran == [] && (ed.escape ==> Step(sh, ed, ch).status == Done)
  {
    if ed.escape && EscapeByte(ed.code, ch).Complete? {
      PerformKeeps(sh, ed.(escape := false), EscapeByte(ed.code, ch).command);
    } else if !ed.escape && Control(sh, ch) && ControlCommand(ch).Some? {
      PerformKeeps(sh, ed.(endl := 0), ControlCommand(ch).value);
    }
  }

  lemma EnterValid(sh: Shell, ed: Editor)
    requires Valid(ed)
    ensures Valid(Enter(sh, ed).ed)
  {
    var line := ed.Line();
    if line != [] && |line| != L.RING - 1 {
      SaveKeeps(ed.log, line, ed.CLine());
    }
  }

  /** Every byte keeps the line within its buffer, printable and NUL-free, and the history valid. */
  lemma {:induction false} StepValid(sh: Shell, ed: Editor, ch: byte)
    requires Valid(ed)
    ensures Valid(Step(sh, ed, ch).ed)
  {
    if ed.escape {
      var seq' := EscapeByte(ed.code, ch);
      if seq'.Complete? {
        PerformValid(sh, ed.(escape := false), seq'.command);
      }
    } else if ch == T.CR || ch == T.LF {
      EnterValid(sh, ed.(endl := ch));
    } else if Control(sh, ch) {
      var command := ControlCommand(ch);
      if command.Some? {
        PerformValid(sh, ed.(endl := 0), command.value);
      }
    }
  }

  // ---------------------------------------------------------------------------
  // Calls with chunks of input
  // ---------------------------------------------------------------------------

  /** The effect of `e` and then of `rest`. */
  function Then(e: Effect, rest: Effect): Effect {
    Effect(rest.ed, e.out + rest.out, e.ran + rest.ran, rest.status)
  }

  /** One call with a chunk of input; whatever stops it drops the rest of the chunk. */
  function Process(sh: Shell, ed: Editor, data: Text): Effect
    requires Valid(ed)
    decreases |data|
  {
    if data == [] then Quiet(ed)
    else
      var e := Step(sh, ed, data[0]);
      StepValid(sh, ed, data[0]);
      if e.status != Done then e else Then(e, Process(sh, e.ed, data[1..]))
  }

  lemma {:induction false} ProcessValid(sh: Shell, ed: Editor, data: Text)
    requires Valid(ed)
    ensures Valid(Process(sh, ed, data).ed)
    decreases |data|
  {
    if data != [] {
      var e := Step(sh, ed, data[0]);
      StepValid(sh, ed, data[0]);
      if e.status == Done {
        ProcessValid(sh, e.ed, data[1..]);
      }
    }
  }

  lemma ProcessFrom(sh: Shell, ed: Editor, data: Text, i: nat)
    requires Valid(ed) && i < |data|
    ensures var e := Step(sh, ed, data[i]);
            && Valid(e.ed)
            && Process(sh, ed, data[i..]) == if e.status != Done then e else Then(e, Process(sh, e.ed, data[i + 1..]))
  {
    StepValid(sh, ed, data[i]);
    assert data[i..][0] == data[i] && data[i..][1..] == data[i + 1..];
  }

  /** One call as the caller sees it: an empty chunk is an error. */
  function Call(sh: Shell, ed: Editor, data: Text): Effect
    requires Valid(ed)
  {
    if data == [] then Effect(ed, [], [], BadParam) else Process(sh, ed, data)
  }

  /** Any number of calls, up to one that never returns. */
  function Session(sh: Shell, ed: Editor, chunks: seq<Text>): Effect
    requires Valid(ed)
    decreases |chunks|
  {
    if chunks == [] then Quiet(ed)
    else
      var e := Call(sh, ed, chunks[0]);
      ProcessValid(sh, ed, chunks[0]);
      if e.status == Hung then e else Then(e, Session(sh, e.ed, chunks[1..]))
  }

  /** A chunk may be cut in two exactly when nothing in the first part stops the call. */
  lemma {:induction false} ProcessConcat(sh: Shell, ed: Editor, a: Text, b: Text)
    requires Valid(ed)
    ensures var e := Process(sh, ed, a);
            && Valid(e.ed)
            && Process(sh, ed, a + b) == if e.status == Done then Then(e, Process(sh, e.ed, b)) else e
    decreases |a|
  {
    ProcessValid(sh, ed, a);
    if a == [] {
      assert a + b == b;
      ThenUnit(Process(sh, ed, b), ed);
    } else {
      var e := Step(sh, ed, a[0]);
      StepValid(sh, ed, a[0]);
      assert (a + b)[1..] == a[1..] + b;
      if e.status == Done {
        ProcessConcat(sh, e.ed, a[1..], b);
        var more := Process(sh, e.ed, a[1..]);
        if more.status == Done {
          ThenAssociates(e, more, Process(sh, more.ed, b));
        }
      }
    }
  }

  lemma ThenUnit(e: Effect, ed: Editor)
    ensures Then(Quiet(ed), e) == e
  {
    assert [] + e.out == e.out && [] + e.ran == e.ran;
  }

  lemma ThenDone(e: Effect, ed: Editor)
    requires e.ed == ed
    ensures Then(e, Quiet(ed)) == e.(status := Done)
  {
    assert e.out + [] == e.out && e.ran + [] == e.ran;
  }

  lemma ThenAssociates(a: Effect, b: Effect, c: Effect)
    ensures Then(a, Then(b, c)) == Then(Then(a, b), c)
  {
    assert a.out + (b.out + c.out) == a.out + b.out + c.out;
    assert a.ran + (b.ran + c.ran) == a.ran + b.ran + c.ran;
  }
}
