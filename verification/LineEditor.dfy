/**
 The line editor as the firmware runs it: a line buffer edited in place, a history ring and
 a print buffer. Every method is proved against `EditorSpec`.
 */
module LineEditor {
  import opened Bytes
  import opened CStrings
  import opened EditorSpec
  import opened HistoryRing
  import L = HistoryLog
  import LineSplitter
  import S = Splitter
  import T = Terminal

  /** Size of the local buffer output is gathered in. */
  const PRINT_BUFFER: nat := 64

  // ---------------------------------------------------------------------------
  // C library
  // ---------------------------------------------------------------------------

  /** `n` bytes of `buf` from `src` on are at `dst`; those past the end of the buffer are anything. */
  ghost predicate Moved(buf: Text, buf': Text, dst: nat, src: nat, n: nat) {
    && |buf| == |buf'|
    && (forall k {:trigger buf'[k]} ::
          dst <= k < dst + n && k - dst + src < |buf| && k < |buf| ==> buf'[k] == buf[k - dst + src])
    && (forall k {:trigger buf'[k]} :: 0 <= k < |buf| && !(dst <= k < dst + n) ==> buf'[k] == buf[k])
  }

  /** `memmove` within one buffer. */
  method MoveBytes(a: array<byte>, dst: nat, src: nat, n: nat)
    requires dst + n <= a.Length
    modifies a
    ensures Moved(old(a[..]), a[..], dst, src, n)
  {
    forall k | dst <= k < dst + n && k - dst + src < a.Length {
      a[k] := a[k - dst + src];
    }
    var known := if a.Length <= src then 0 else if a.Length - src < n then a.Length - src else n;
    for j := known to n
      invariant forall k :: dst <= k < dst + known ==> a[k] == old(a[k - dst + src])
      invariant forall k :: 0 <= k < a.Length && !(dst <= k < dst + n) ==> a[k] == old(a[k])
    {
      a[dst + j] := *;
    }
  }

  /** `buf'` is `buf` with `text` written at `at`. */
  ghost predicate Wrote(buf: Text, buf': Text, at: nat, text: Text) {
    && |buf| == |buf'| && at + |text| <= |buf|
    && (forall i :: 0 <= i < |text| ==> buf'[at + i] == text[i])
    && SameOutside(buf, buf', at, at + |text|)
  }

  lemma WroteNext(buf: Text, buf': Text, at: nat, text: Text, b: byte)
    requires Wrote(buf, buf', at, text) && at + |text| < |buf|
    ensures Wrote(buf, buf'[at + |text| := b], at, text + [b])
  {
  }

  lemma WroteSlice(buf: Text, buf': Text, at: nat, text: Text)
    requires Wrote(buf, buf', at, text)
    ensures buf'[at..at + |text|] == text && buf'[..at] == buf[..at]
    ensures buf'[at + |text|..] == buf[at + |text|..]
  {
  }

  /** `*p++ = b`, where `text` was written since `start`. */
  method PutByte(str: array<byte>, at: nat, b: byte, ghost buf: Text, ghost start: nat, ghost text: Text)
    returns (next: nat)
    requires Wrote(buf, str[..], start, text) && at == start + |text| < str.Length
    modifies str
    ensures next == at + 1 && Wrote(buf, str[..], start, text + [b])
  {
    WroteNext(buf, str[..], start, text, b);
    str[at] := b;
    next := at + 1;
  }

  /** `strlen`. */
  method StringLength(a: array<byte>) returns (n: nat)
    requires NUL in a[..]
    ensures n == |CStr(a[..])|
  {
    n := 0;
    while a[n] != NUL
      invariant n <= |CStr(a[..])| < a.Length
      decreases a.Length - n
    {
      n := n + 1;
    }
  }

  // ---------------------------------------------------------------------------
  // Cursor sequences
  // ---------------------------------------------------------------------------

  function Reverse(s: Text): (r: Text)
    ensures |r| == |s| && forall i :: 0 <= i < |s| ==> r[i] == s[|s| - 1 - i]
  {
    seq(|s|, i requires 0 <= i < |s| => s[|s| - 1 - i])
  }

  /** The digits of a number below 1000, lowest first. */
  method Digits(tmp: array<byte>, value: nat) returns (n: nat)
    requires tmp.Length == 4 && value <= 999
    modifies tmp
    ensures n <= 3 && T.Decimal(value) == Reverse(tmp[..n])
  {
    n := 0;
    var offset := value;
    while offset > 0
      invariant n <= 3 && offset <= (if n == 0 then 999 else if n == 1 then 99 else if n == 2 then 9 else 0)
      invariant T.Decimal(value) == T.Decimal(offset) + Reverse(tmp[..n])
    {
      ghost var digits := tmp[..n];
      tmp[n] := 48 + offset % 10;
      assert tmp[..n] == digits && tmp[..n + 1] == digits + [tmp[n]];
      assert Reverse(tmp[..n + 1]) == [tmp[n]] + Reverse(digits);
      assert T.Decimal(offset) == T.Decimal(offset / 10) + [tmp[n]];
      offset := offset / 10;
      n := n + 1;
    }
  }

  lemma {:induction false} DecimalLength(n: nat)
    requires n <= 999
    ensures |T.Decimal(n)| <= 3
    ensures n <= 99 ==> |T.Decimal(n)| <= 2
    ensures n <= 9 ==> |T.Decimal(n)| <= 1
  {
    if n > 0 {
      DecimalLength(n / 10);
    }
  }

  lemma MoveLength(offset: int)
    ensures |T.Move(offset)| <= 6 && NulFree(T.Move(offset))
  {
    var n := if offset > 999 || offset < -999 then 999 else if offset < 0 then -offset else offset;
    DecimalLength(n);
  }

  /** Appends the digits of a number, highest first. */
  method PutDigits(str: array<byte>, pos: nat, value: nat, ghost buf: Text, ghost at: nat, ghost text: Text)
    returns (end: nat)
    requires value <= 999 && pos == at + |text| && pos + 3 < str.Length && |T.Decimal(value)| <= 3
    requires Wrote(buf, str[..], at, text)
    modifies str
    ensures end == pos + |T.Decimal(value)| && Wrote(buf, str[..], at, text + T.Decimal(value))
  {
    var tmp := new byte[4](_ => NUL);
    var n := Digits(tmp, value);
    ghost var digits, low := Reverse(tmp[..n]), tmp[..];
    end := pos;
    assert text + digits[..0] == text;
    for j := 0 to n
      invariant tmp[..] == low && end == pos + j
      invariant Wrote(buf, str[..], at, text + digits[..j])
    {
      assert tmp[n - j - 1] == digits[j];
      end := PutByte(str, end, tmp[n - j - 1], buf, at, text + digits[..j]);
      assert text + digits[..j] + [digits[j]] == text + digits[..j + 1];
    }
    assert digits[..n] == digits;
  }

  /** A control sequence with the parameter `value`, and a NUL. */
  method PutSequence(str: array<byte>, at: nat, value: nat, final: byte) returns (end: nat)
    requires at + 7 <= str.Length && value <= 999 && |T.Decimal(value)| <= 3
    modifies str
    ensures end == at + 3 + |T.Decimal(value)| < str.Length
    ensures Wrote(old(str[..]), str[..], at, [T.ESC, T.BRACKET] + T.Decimal(value) + [final] + [NUL])
  {
    ghost var buf, digits := str[..], T.Decimal(value);
    end := PutByte(str, at, T.ESC, buf, at, []);
    end := PutByte(str, end, T.BRACKET, buf, at, [] + [T.ESC]);
    ghost var text := [] + [T.ESC] + [T.BRACKET];
    assert text == [T.ESC, T.BRACKET];
    end := PutDigits(str, end, value, buf, at, text);
    end := PutByte(str, end, final, buf, at, text + digits);
    WroteNext(buf, str[..], at, text + digits + [final], NUL);
    str[end] := NUL;
  }

  /** Writes the sequence that moves the cursor by `offset`, and a NUL, at `at`. */
  method GenerateMove(str: array<byte>, at: nat, offset: int) returns (end: nat)
    requires at + 7 <= str.Length
    modifies str
    ensures end == at + |T.Move(offset)| < str.Length
    ensures Wrote(old(str[..]), str[..], at, T.Move(offset) + [NUL])
  {
    MoveLength(offset);
    DecimalLength(if offset > 999 || offset < -999 then 999 else if offset < 0 then -offset else offset);
    var c := T.CUF;
    var off := if offset > 999 then 999 else if offset < -999 then -999 else offset;
    if off < 0 {
      off := -off;
      c := T.CUB;
    } else if off == 0 {
      str[at] := NUL;
      return at;
    }
    end := PutSequence(str, at, off, c);
    assert T.Move(offset) == [T.ESC, T.BRACKET] + T.Decimal(off) + [c];
  }

  // ---------------------------------------------------------------------------
  // The print buffer
  // ---------------------------------------------------------------------------

  /**
   `at` bytes of the chunk of `size` being gathered are new; what follows them, up to
   `size`, is left of the previous chunk, if there was one.
   */
  ghost predicate Chunk(buf: Text, at: nat, size: nat, first: bool) {
    && at < size <= 8 < |buf| && buf[size] == NUL
    && (first ==> at + 1 == size)
    && forall k :: 0 <= k < size && !(first && k == at) ==> buf[k] != NUL
  }

  /** One more byte: the string in the buffer is then always `size` bytes long. */
  lemma ChunkNext(buf: Text, at: nat, size: nat, first: bool, b: byte)
    requires Chunk(buf, at, size, first) && b != NUL
    ensures var buf' := buf[at := b];
            && NUL in buf' && CStr(buf') == buf'[..size]
            && buf'[..at + 1] == buf[..at] + [b]
            && (at + 1 < size ==> Chunk(buf', at + 1, size, false))
            && (at + 1 == size ==> Chunk(buf'[size := NUL], 0, size, false))
  {
    var buf' := buf[at := b];
    assert buf'[size] == NUL;
    CStrIs(buf', buf'[..size]);
  }

  /** The end of the output: the string in the buffer is the gathered bytes and `tail`. */
  lemma ChunkTail(buf: Text, buf': Text, at: nat, size: nat, first: bool, tail: Text)
    requires Chunk(buf, at, size, first) && Wrote(buf, buf', at, tail + [NUL]) && NulFree(tail)
    ensures CStr(buf') == buf[..at] + tail
  {
    var text := buf[..at] + tail;
    assert buf'[at + |tail|] == (tail + [NUL])[|tail|];
    forall i | 0 <= i < |text|
      ensures buf'[i] == text[i] != NUL
    {
      if i >= at {
        assert buf'[at + (i - at)] == (tail + [NUL])[i - at] == tail[i - at];
      }
    }
    assert buf'[..|text|] == text;
    CStrIs(buf', text);
  }

  lemma WroteConcat(buf: Text, mid: Text, buf': Text, at: nat, a: Text, b: Text)
    requires Wrote(buf, mid, at, a) && Wrote(mid, buf', at + |a|, b)
    ensures Wrote(buf, buf', at, a + b)
  {
    forall i | 0 <= i < |a + b|
      ensures buf'[at + i] == (a + b)[i]
    {
      if i >= |a| {
        assert buf'[at + |a| + (i - |a|)] == b[i - |a|];
      }
    }
  }

  /** A text and a NUL at the start of a buffer are a C string. */
  lemma WroteString(buf: Text, buf': Text, text: Text)
    requires Wrote(buf, buf', 0, text + [NUL]) && NulFree(text)
    ensures CStr(buf') == text
  {
    WroteSlice(buf, buf', 0, text + [NUL]);
    var start := buf'[0..0 + |text + [NUL]|];
    assert buf'[..|text|] == start[..|text|] == text && buf'[|text|] == start[|text|];
    CStrIs(buf', text);
  }

  /** The sequence that erases to the end of the row. */
  method PutErase(str: array<byte>, at: nat) returns (next: nat)
    requires at + 3 <= str.Length
    modifies str
    ensures next == at + 3 && Wrote(old(str[..]), str[..], at, T.ERASE)
  {
    next := at;
    str[next] := T.ESC;
    next := next + 1;
    str[next] := T.BRACKET;
    next := next + 1;
    str[next] := T.EL;
    next := next + 1;
    assert T.ERASE[0] == T.ESC && T.ERASE[1] == T.BRACKET && T.ERASE[2] == T.EL;
  }

  lemma EraseNulFree()
    ensures NulFree(T.ERASE)
  {
    assert T.ERASE[0] == T.ESC && T.ERASE[1] == T.BRACKET && T.ERASE[2] == T.EL;
  }

  lemma Assemble(old_out: Text, out: Text, part: Text, front: Text, text: Text, a: Text, b: Text)
    requires out + part == old_out + front + text
    ensures out + (part + (a + b)) == old_out + (front + text + a + b)
  {
    assert out + (part + (a + b)) == out + part + a + b;
    assert old_out + front + text + a + b == old_out + (front + text + a + b);
  }

  /** A carriage return and a move at the start of an empty buffer. */
  lemma FrontChunk(buf: Text, buf': Text, move: Text)
    requires |buf| > 8 && (forall i :: 1 <= i < |buf| ==> buf[i] == NUL) && buf[0] == T.CR
    requires |move| <= 6 && NulFree(move) && Wrote(buf, buf', 1, move + [NUL])
    ensures Chunk(buf', 1 + |move|, 2 + |move|, true) && buf'[..1 + |move|] == [T.CR] + move
  {
    forall i | 0 <= i < |move|
      ensures buf'[1 + i] == move[i]
    {
      assert buf'[1 + i] == (move + [NUL])[i];
    }
    assert forall k :: 1 <= k < 1 + |move| ==> buf'[k] == move[k - 1];
  }

  lemma TailString(chunk: Text, erased: Text, buf: Text, end: nat, size: nat, first: bool, offset: int)
    requires Chunk(chunk, end, size, first) && Wrote(chunk, erased, end, T.ERASE)
    requires Wrote(erased, buf, end + 3, T.Move(offset) + [NUL])
    ensures CStr(buf) == chunk[..end] + (T.ERASE + T.Move(offset))
  {
    var move := T.Move(offset);
    MoveLength(offset);
    WroteConcat(chunk, erased, buf, end, T.ERASE, move + [NUL]);
    assert T.ERASE + (move + [NUL]) == T.ERASE + move + [NUL];
    EraseNulFree();
    ChunkTail(chunk, buf, end, size, first, T.ERASE + move);
  }

  // ---------------------------------------------------------------------------
  // The line buffer
  // ---------------------------------------------------------------------------

  /** The buffer holds the line of `e`, and a NUL at its end. */
  ghost predicate HoldsLine(line: array<byte>, e: Editor)
    reads line
  {
    line.Length == LINE + 1 && StringAt(line[..], 0, e.CLine()) && line[LINE] == NUL
  }

  method CopyText(line: array<byte>, at: nat, text: Text)
    requires at + |text| <= line.Length
    modifies line
    ensures Wrote(old(line[..]), line[..], at, text)
  {
    for i := 0 to |text|
      invariant forall k :: 0 <= k < line.Length ==>
                  line[k] == if at <= k < at + i then text[k - at] else old(line[k])
    {
      line[at + i] := text[i];
    }
  }

  /** Opens a gap at the cursor and writes the text into it. */
  method InsertBytes(line: array<byte>, cursor: nat, cmdlen: nat, text: Text, ghost e: Editor)
    requires HoldsLine(line, e) && cursor == |e.before| && cmdlen == |e.before| + |e.after|
    requires T.Graphic(text) && cmdlen + |text| <= LINE
    modifies line
    ensures HoldsLine(line, e.(before := e.before + text, stale := []))
  {
    ghost var buf := line[..];
    assert StringAt(buf, 0, e.CLine()) && buf[LINE] == NUL;
    MoveBytes(line, cursor + |text|, cursor, cmdlen - cursor);
    ghost var moved := line[..];
    CopyText(line, cursor, text);
    ghost var copied := line[..];
    forall k | cmdlen + |text| <= k < LINE {
      line[k] := NUL;
    }
    InsertedString(buf, moved, copied, line[..], e, text);
  }

  /** Closes the gap of `len` bytes before the cursor. */
  method RemoveBytes(line: array<byte>, cursor: nat, cmdlen: nat, len: nat, ghost e: Editor)
    requires HoldsLine(line, e) && cursor == |e.before| && cmdlen == |e.before| + |e.after|
    requires len <= cursor && cmdlen + |e.stale| <= LINE
    modifies line
    ensures HoldsLine(line, RemoveBack(e, len))
  {
    ghost var buf := line[..];
    MoveBytes(line, cursor - len, cursor, cmdlen - cursor + len);
    RemovedString(buf, line[..], e, len);
    line[cmdlen] := NUL;
  }

  /** Closes the gap of the byte under the cursor. */
  method DeleteByte(line: array<byte>, cursor: nat, cmdlen: nat, ghost e: Editor)
    requires HoldsLine(line, e) && cursor == |e.before| && cmdlen == |e.before| + |e.after|
    requires e.after != [] && cmdlen + |e.stale| <= LINE
    modifies line
    ensures HoldsLine(line, RemoveForward(e))
  {
    ghost var buf := line[..];
    MoveBytes(line, cursor, cursor + 1, cmdlen - cursor + 1);
    DeletedString(buf, line[..], e);
    line[cmdlen] := NUL;
  }

  lemma SameLine(e: Editor, e': Editor)
    requires EditorSpec.Valid(e) && e' == e.(before := e'.before, after := e'.after) && e'.Line() == e.Line()
    ensures EditorSpec.Valid(e') && e'.CLine() == e.CLine()
  {
    var line, n := e.Line(), |e'.before|;
    assert forall i :: 0 <= i < |line| ==> line[i] == if i < |e.before| then e.before[i] else e.after[i - |e.before|];
    assert e'.before == line[..n] && e'.after == line[n..];
  }

  class Microrl {
    const shell: Shell
    const line: array<byte>
    const hist: Ring
    var cmdlen: nat
    var cursor: nat
    var endl: byte
    var code: Code
    var escape: bool
    /** Everything passed to the output callback, and every command passed to the execute callback. */
    var out: Text
    var ran: seq<seq<Text>>
    /** The abstract editor. */
    ghost var ed: Editor

    ghost predicate Valid()
      reads `cmdlen, `cursor, `endl, `code, `escape, `ed, line, hist, hist.buf
    {
      && line.Length == LINE + 1 && line != hist.buf && hist.Valid()
      && EditorSpec.Valid(ed) && LineIs(ed)
      && ed.log == hist.Abs() && ed.escape == escape && ed.code == code && ed.endl == endl
    }

    /** The line buffer and its two positions hold the line of `e`. */
    ghost predicate LineIs(e: Editor)
      reads `cmdlen, `cursor, line
    {
      cursor == |e.before| && cmdlen == |e.before| + |e.after| && HoldsLine(line, e)
    }

    /** An editor after `microrl_init`. */
    constructor (shell: Shell)
      ensures Valid() && this.shell == shell && ed == START && out == [] && ran == []
    {
      this.shell := shell;
      line := new byte[LINE + 1](_ => NUL);
      hist := new Ring();
      cmdlen, cursor, endl := 0, 0, 0;
      code, escape := Bracket, false;
      out, ran := [], [];
      ed := START;
    }

    /** `out_fn` on a C string. */
    method Write(str: array<byte>)
      modifies this`out
      ensures out == old(out) + CStr(str[..])
    {
      out := out + CStr(str[..]);
    }

    /** Gathers one byte of output; a chunk of the length of the string in `str` is sent. */
    method PutText(str: array<byte>, at: nat, b: byte, ghost size: nat, ghost first: bool) returns (end: nat)
      requires Chunk(str[..], at, size, first) && b != NUL
      modifies this`out, str
      ensures end < size && Chunk(str[..], end, size, false)
      ensures out + str[..end] == old(out) + old(str[..at]) + [b]
    {
      ghost var buf := str[..];
      ChunkNext(buf, at, size, first, b);
      str[at] := b;
      assert str[..] == buf[at := b];
      end := at + 1;
      assert out + str[..end] == old(out) + old(str[..at]) + [b];
      var n := StringLength(str);
      if end == n {
        assert str[..end] == CStr(str[..]);
        str[end] := NUL;
        assert str[..end] == buf[at := b][..end];
        Write(str);
        end := 0;
        assert str[..end] == [];
      }
    }

    /** Prints the line from `pos` on through `str`, in chunks of the length of its first string. */
    method PrintText(str: array<byte>, at: nat, pos: nat) returns (end: nat, ghost first: bool)
      requires Valid() && pos <= cmdlen && str.Length == PRINT_BUFFER && str != line && str != hist.buf
      requires Chunk(str[..], at, at + 1, true)
      modifies this`out, str
      ensures Valid() && end < at + 1
      ensures Chunk(str[..], end, at + 1, first)
      ensures out + str[..end] == old(out) + old(str[..at]) + ed.Line()[pos..]
    {
      var i := pos;
      end := at;
      ghost var text := ed.Line();
      ghost var before := out + str[..at];
      first := true;
      while i < cmdlen
        invariant pos <= i <= cmdlen && end < at + 1
        invariant Valid()
        invariant Chunk(str[..], end, at + 1, first)
        invariant out + str[..end] == before + text[pos..i]
      {
        LineByte(i);
        assert text[pos..i + 1] == text[pos..i] + [text[i]];
        end := PutText(str, end, line[i], at + 1, first);
        i := i + 1;
        first := false;
      }
      assert text[pos..] == text[pos..i];
    }

    lemma LineByte(i: nat)
      requires Valid() && i < cmdlen
      ensures line[i] == ed.Line()[i] != NUL
    {
      assert line[..][0 + i] == ed.CLine()[i] == ed.Line()[i];
    }

    /** Starts the output: back to the margin and over the prompt and the first `pos` bytes. */
    method PutFront(str: array<byte>, pos: nat) returns (at: nat)
      requires Valid() && str.Length == PRINT_BUFFER && (forall i :: 0 <= i < PRINT_BUFFER ==> str[i] == NUL)
      requires str != line && str != hist.buf
      modifies str
      ensures Chunk(str[..], at, at + 1, true)
      ensures str[..at] == [T.CR] + T.Move(|shell.prompt| + pos)
    {
      str[0] := T.CR;
      ghost var buf, move := str[..], T.Move(|shell.prompt| + pos);
      MoveLength(|shell.prompt| + pos);
      at := GenerateMove(str, 1, |shell.prompt| + pos);
      FrontChunk(buf, str[..], move);
    }

    /** Ends the output: erases the rest of the row and moves the cursor back. */
    method PrintTail(str: array<byte>, end: nat, ghost size: nat, ghost first: bool)
      requires str.Length == PRINT_BUFFER && Chunk(str[..], end, size, first)
      modifies this`out, str
      ensures out == old(out) + (old(str[..end]) + (T.ERASE + T.Move(cursor - cmdlen)))
    {
      ghost var chunk := str[..];
      var tail := PutErase(str, end);
      ghost var erased := str[..];
      var _ := GenerateMove(str, tail, cursor - cmdlen);
      TailString(chunk, erased, str[..], end, size, first, cursor - cmdlen);
      Write(str);
    }

    /** Writes what is in `str`, the line from `pos` on, and the end of the output. */
    method PrintRest(str: array<byte>, at: nat, pos: nat)
      requires Valid() && pos <= cmdlen && str.Length == PRINT_BUFFER && str != line && str != hist.buf
      requires Chunk(str[..], at, at + 1, true)
      modifies this`out, str
      ensures Valid()
      ensures out == old(out) + (old(str[..at]) + ed.Line()[pos..] + T.ERASE + T.Move(-|ed.after|))
    {
      ghost var before, front := out, str[..at];
      var end, first := PrintText(str, at, pos);
      if end + 3 + 6 + 1 > PRINT_BUFFER {
        assert false;
      }
      ghost var sent, part := out, str[..end];
      PrintTail(str, end, at + 1, first);
      assert cursor - cmdlen == -|ed.after|;
      Assemble(before, sent, part, front, ed.Line()[pos..], T.ERASE, T.Move(-|ed.after|));
    }

    /** Writes the line from column `pos` on, erases what follows and puts the cursor back. */
    method PrintLine(pos: nat, reset: bool)
      requires Valid() && pos <= cmdlen
      modifies this`out
      ensures Valid() && out == old(out) + EditorSpec.PrintLine(shell, ed, pos, reset)
    {
      var str := new byte[PRINT_BUFFER](_ => NUL);
      var at := 0;
      if reset {
        at := PutFront(str, pos);
      }
      PrintRest(str, at, pos);
    }

    /** Moves the terminal's cursor. */
    method MoveCursor(offset: int)
      requires Valid()
      modifies this`out
      ensures Valid() && out == old(out) + T.Move(offset)
    {
      if offset == 0 {
        return;
      }
      var str := new byte[16](_ => NUL);
      MoveLength(offset);
      ghost var buf, move := str[..], T.Move(offset);
      var _ := GenerateMove(str, 0, offset);
      WroteString(buf, str[..], move);
      Write(str);
    }

    // -------------------------------------------------------------------------
    // The line buffer
    // -------------------------------------------------------------------------

    /** Inserts a text at the cursor, if the line has room for it. */
    method InsertText(text: Text) returns (ok: bool)
      requires Valid() && T.Graphic(text)
      modifies `cmdlen, `cursor, `ed, line
      ensures Valid() && ok == (|old(ed).before| + |old(ed).after| + |text| <= LINE)
      ensures ed == if ok then old(ed).(before := old(ed).before + text, stale := []) else old(ed)
    {
      if cmdlen + |text| > LINE {
        return false;
      }
      InsertBytes(line, cursor, cmdlen, text, ed);
      cursor := cursor + |text|;
      cmdlen := cmdlen + |text|;
      ed := ed.(before := ed.before + text, stale := []);
      ok := true;
    }

    /** Removes `len` bytes before the cursor. */
    method BackspaceText(len: nat)
      requires Valid()
      modifies `cmdlen, `cursor, `ed, line
      ensures Valid() && ed == if len <= |old(ed).before| then RemoveBack(old(ed), len) else old(ed)
    {
      if cursor < len {
        return;
      }
      RemoveBytes(line, cursor, cmdlen, len, ed);
      cursor := cursor - len;
      cmdlen := cmdlen - len;
      ed := RemoveBack(ed, len);
    }

    /** Removes the byte under the cursor. */
    method DeleteText()
      requires Valid()
      modifies `cmdlen, `ed, line
      ensures Valid() && ed == RemoveForward(old(ed))
    {
      if cmdlen == 0 || cursor == cmdlen {
        return;
      }
      DeleteByte(line, cursor, cmdlen, ed);
      cmdlen := cmdlen - 1;
      RemoveForwardValid(ed);
      ed := RemoveForward(ed);
    }

    // -------------------------------------------------------------------------
    // Keys
    // -------------------------------------------------------------------------

    /** DEL and ^H. */
    method PressRubout()
      requires Valid()
      modifies `cmdlen, `cursor, `ed, `out, line
      ensures Valid()
      ensures var e := Rubout(shell, old(ed)); ed == e.ed && out == old(out) + e.out
    {
      if cursor > 0 {
        BackspaceText(1);
        if cursor == cmdlen {
          out := out + T.RUBOUT;
        } else {
          PrintLine(cursor, true);
        }
      }
    }

    /** ^D, the delete key, and Alt with the backspace key. */
    method PressDelete()
      requires Valid()
      modifies `cmdlen, `ed, `out, line
      ensures Valid()
      ensures var e := Delete(shell, old(ed)); ed == e.ed && out == old(out) + e.out
    {
      DeleteText();
      PrintLine(cursor, false);
    }

    /** ^U. */
    method PressKillBack()
      requires Valid()
      modifies `cmdlen, `cursor, `ed, `out, line
      ensures Valid()
      ensures var e := KillBack(shell, old(ed)); ed == e.ed && out == old(out) + e.out
    {
      if cursor > 0 {
        BackspaceText(cursor);
      }
      PrintLine(0, true);
    }

    /** ^K. */
    method PressKillForward()
      requires Valid()
      modifies `cmdlen, `ed, `out
      ensures Valid()
      ensures var e := KillForward(old(ed)); ed == e.ed && out == old(out) + e.out
    {
      out := out + T.ERASE;
      cmdlen := cursor;
      ed := KillForward(ed).ed;
      assert old(ed).CLine() == ed.CLine();
    }

    /** Puts the cursor elsewhere in the same line. */
    method PlaceCursor(at: nat, ghost e: Editor)
      requires Valid() && e == ed.(before := e.before, after := e.after) && e.Line() == ed.Line() && at == |e.before|
      modifies `cursor, `ed
      ensures Valid() && ed == e
    {
      SameLine(ed, e);
      cursor := at;
      ed := e;
    }

    /** ^E and the end key. */
    method PressEnd()
      requires Valid()
      modifies `cursor, `ed, `out
      ensures Valid()
      ensures var e := ToEnd(old(ed)); ed == e.ed && out == old(out) + e.out
    {
      MoveCursor(cmdlen - cursor);
      assert ToEnd(ed).ed.Line() == ed.Line();
      PlaceCursor(cmdlen, ToEnd(ed).ed);
    }

    /** ^A and the home key. */
    method PressStart()
      requires Valid()
      modifies `cursor, `ed, `out
      ensures Valid()
      ensures var e := ToStart(old(ed)); ed == e.ed && out == old(out) + e.out
    {
      MoveCursor(0 - cursor);
      assert ToStart(ed).ed.Line() == ed.Line();
      PlaceCursor(0, ToStart(ed).ed);
    }

    /** ^F and the right arrow. */
    method PressRight()
      requires Valid()
      modifies `cursor, `ed, `out
      ensures Valid()
      ensures var e := Right(old(ed)); ed == e.ed && out == old(out) + e.out
    {
      if cursor < cmdlen {
        MoveCursor(1);
        assert Right(ed).ed.Line() == ed.Line();
        PlaceCursor(cursor + 1, Right(ed).ed);
      }
    }

    /** ^B and the left arrow. */
    method PressLeft()
      requires Valid()
      modifies `cursor, `ed, `out
      ensures Valid()
      ensures var e := Left(old(ed)); ed == e.ed && out == old(out) + e.out
    {
      if cursor > 0 {
        MoveCursor(-1);
        assert Left(ed).ed.Line() == ed.Line();
        PlaceCursor(cursor - 1, Left(ed).ed);
      }
    }

    /** NULs after the record, up to the end of the line buffer. */
    method PadLine(len: nat, ghost shown: Text)
      requires line.Length == LINE + 1 && line[LINE] == NUL && len == |shown| < LINE && NulFree(shown)
      requires shown == [] || line[..LINE] == shown + Fill(LINE - len, NUL)
      modifies line
      ensures StringAt(line[..], 0, shown) && line[LINE] == NUL
    {
      ghost var buf := line[..];
      assert line[..LINE] == buf[..LINE];
      forall k | len <= k < LINE {
        line[k] := NUL;
      }
      RestoredString(buf, line[..], shown);
    }

    /** The cursor at the end of a line of `len` bytes. */
    method SetLine(len: nat, ghost e: Editor)
      requires line != hist.buf && hist.Valid() && EditorSpec.Valid(e) && HoldsLine(line, e)
      requires len == |e.before| && e.after == []
      requires e.log == hist.Abs() && e.escape == escape && e.code == code && e.endl == endl
      modifies `cmdlen, `cursor, `ed
      ensures Valid() && ed == e
    {
      cursor, cmdlen := len, len;
      ed := e;
    }

    /** The line becomes a record of the history. */
    method LoadRecord(dir: L.Direction)
      requires Valid() && dir != L.Stay
      modifies `cmdlen, `cursor, `ed, line, hist`count
      ensures Valid() && ed == Recall(shell, old(ed), dir).ed
    {
      ghost var e, shown := Recall(shell, ed, dir).ed, L.Shown(L.Navigate(ed.log, dir));
      RecallFacts(shell, ed, dir);
      var len := hist.RestoreLine(line, dir);
      PadLine(len, shown);
      SetLine(len, e);
    }

    /** ^P, ^N and the up and down arrows. */
    method PressRecall(dir: L.Direction)
      requires Valid() && dir != L.Stay
      modifies `cmdlen, `cursor, `ed, `out, line, hist`count
      ensures Valid()
      ensures var e := Recall(shell, old(ed), dir); ed == e.ed && out == old(out) + e.out
    {
      LoadRecord(dir);
      PrintLine(0, true);
    }

    /** ^R and ^L. */
    method PressRedraw(clear: bool)
      requires Valid()
      modifies `out
      ensures Valid()
      ensures out == old(out) + (if clear then ClearScreen(shell, ed) else Redraw(shell, ed)).out
    {
      if clear {
        out := out + T.CLEAR;
        out := out + T.HOME;
        Regroup(old(out), T.CLEAR, T.HOME);
      } else {
        out := out + T.NEWLINE;
      }
      ghost var front := if clear then T.CLEAR + T.HOME else T.NEWLINE;
      ghost var printed := EditorSpec.PrintLine(shell, ed, 0, false);
      out := out + shell.prompt;
      PrintLine(0, false);
      Regroup4(old(out), front, shell.prompt, printed);
    }

    /** Shows the character just typed. */
    method Echo(ch: byte)
      requires Valid() && cursor > 0
      modifies `out
      ensures Valid()
      ensures out == old(out) + if ed.after == [] then [ch] else EditorSpec.PrintLine(shell, ed, |ed.before| - 1, false)
    {
      if cursor == cmdlen {
        out := out + [ch];
      } else {
        PrintLine(cursor - 1, false);
      }
    }

    /** A printable character. */
    method PressPrintable(ch: byte) returns (status: Status)
      requires Valid() && !T.IsControl(ch)
      modifies `cmdlen, `cursor, `ed, `out, line
      ensures Valid()
      ensures var e := Insert(shell, old(ed), ch); ed == e.ed && out == old(out) + e.out && status == e.status
    {
      var ok := InsertText([ch]);
      if !ok {
        return LineFull;
      }
      Echo(ch);
      status := Done;
    }

    /** Splits the line and runs it, or reports too many tokens. */
    method RunLine(ghost text: Text) returns (status: Status)
      requires NUL in line[..] && CStr(line[..]) == text
      modifies `out, `ran, line
      ensures var run := RunWords(shell, S.Split(text, cmdlen));
              out == old(out) + run.out && ran == old(ran) + run.ran && status == run.status
    {
      ghost var words := S.Split(text, cmdlen);
      var starts := new nat[S.TOKENS](_ => 0);
      var ok, num := LineSplitter.SplitLine(line, starts, cmdlen);
      if ok {
        var tokens := ReadTokens(starts, num, words.tokens);
        ran := ran + [tokens];
        out := out + shell.reply(tokens);
        status := Done;
      } else {
        out := out + ERROR;
        out := out + T.NEWLINE;
        assert old(out) + ERROR + T.NEWLINE == old(out) + (ERROR + T.NEWLINE);
        status := TooManyTokens;
      }
    }

    /** Empties the line buffer. */
    method ResetLine(ghost e: Editor)
      requires line.Length == LINE + 1 && line != hist.buf && hist.Valid() && EditorSpec.Valid(e)
      requires e.before == [] && e.after == [] && e.stale == []
      requires e.log == hist.Abs() && e.escape == escape && e.code == code && e.endl == endl
      modifies `cmdlen, `cursor, `ed, line
      ensures Valid() && ed == e
    {
      forall k | 0 <= k <= LINE {
        line[k] := NUL;
      }
      cmdlen, cursor := 0, 0;
      ed := e;
      assert e.CLine() == [];
    }

    /** Saves a line that is not empty in the history, splits it and runs it. */
    method SaveAndRun() returns (status: Status)
      requires Valid() && cmdlen > 0 && |ed.Line()| != L.RING - 1
      modifies `out, `ran, line, hist, hist.buf
      ensures hist.Valid() && hist.Abs() == L.Save(ed.log, ed.Line(), ed.CLine())
      ensures var run := RunWords(shell, S.Split(ed.CLine(), |ed.Line()|));
              out == old(out) + run.out && ran == old(ran) + run.ran && status == run.status
    {
      LineStrings();
      hist.SaveLine(line, cmdlen);
      status := RunLine(ed.CLine());
    }

    /** The end of a line. */
    method HandleNewline() returns (status: Status)
      requires Valid() && |ed.Line()| != L.RING - 1
      modifies `cmdlen, `cursor, `ed, `out, `ran, line, hist, hist.buf
      ensures Valid()
      ensures var e := Enter(shell, old(ed));
              ed == e.ed && out == old(out) + e.out && ran == old(ran) + e.ran && status == e.status
    {
      ghost var e, line := Enter(shell, ed), ed.Line();
      ghost var run := if line == [] then Outcome([], [], Done) else RunWords(shell, S.Split(ed.CLine(), |line|));
      EnterValid(shell, ed);
      status := Done;
      out := out + T.NEWLINE;
      if cmdlen != 0 {
        status := SaveAndRun();
      }
      out := out + shell.prompt;
      ResetLine(e.ed);
      Regroup4(old(out), T.NEWLINE, run.out, shell.prompt);
    }

    /**
     What `Hung` stands for: on a line of `RING - 1` bytes the save finds no repeat, and its
     eviction loop does not end.
     */
    lemma NewlineHangs()
      requires Valid() && |ed.Line()| == L.RING - 1
      ensures Enter(shell, ed).status == Hung
      ensures hist.head < L.RING && MarkerInside(hist.buf[..])
      ensures L.Compared(hist.Abs()) != CStr(line[..]) && !Ends(hist.buf[..], hist.head, hist.tail, cmdlen)
    {
      LineStrings();
      hist.SaveHangsExactly(ed.Line(), CStr(line[..]));
    }

    /** The buffer as the history and the splitter read it. */
    lemma LineStrings()
      requires Valid() && cmdlen > 0
      ensures NUL in line[..] && CStr(line[..]) == ed.CLine() && line[..cmdlen] == ed.Line()
      ensures L.IsRecord(ed.Line()) && S.Split(ed.CLine(), cmdlen) == S.Split(ed.CLine(), |ed.Line()|)
    {
      var text := ed.CLine();
      assert line[LINE] == NUL;
      assert forall k :: 0 <= k < |text| ==> line[..][0 + k] == text[k];
      assert line[..][..|text|] == text;
      CStrIs(line[..], text);
      assert text[..cmdlen] == ed.Line();
      assert line[..cmdlen] == line[..][..|text|][..cmdlen];
    }

    /** The tokens as the execute callback reads them. */
    method ReadTokens(starts: array<nat>, num: nat, ghost ts: seq<Text>) returns (tokens: seq<Text>)
      requires starts.Length == S.TOKENS && num == |ts| <= S.TOKENS
      requires forall k :: 0 <= k < num ==> StringAt(line[..], starts[k], ts[k])
      ensures tokens == ts
    {
      tokens := [];
      for k := 0 to num
        invariant tokens == ts[..k]
      {
        StringRead(line[..], starts[k], ts[k]);
        tokens := tokens + [CStr(line[starts[k]..])];
      }
    }

    /** One editing command. */
    method Run(c: Command)
      requires Valid()
      modifies `cmdlen, `cursor, `ed, `out, line, hist`count
      ensures Valid()
      ensures var e := Perform(shell, old(ed), c); ed == e.ed && out == old(out) + e.out
    {
      match c {
        case RuboutKey => PressRubout();
        case DeleteKey => PressDelete();
        case KillBackKey => PressKillBack();
        case KillForwardKey => PressKillForward();
        case StartKey => PressStart();
        case EndKey => PressEnd();
        case RightKey => PressRight();
        case LeftKey => PressLeft();
        case OlderKey => PressRecall(L.Up);
        case NewerKey => PressRecall(L.Down);
        case RedrawKey => PressRedraw(false);
        case ClearKey => PressRedraw(true);
      }
    }

    /** A byte of an escape sequence. */
    method EscapeChar(ch: byte)
      requires Valid() && escape
      modifies `cmdlen, `cursor, `code, `escape, `ed, `out, line, hist`count
      ensures Valid()
      ensures var e := EscapeKey(shell, old(ed), ch); ed == e.ed && out == old(out) + e.out
    {
      match EscapeByte(code, ch) {
        case More(next) =>
          code := next;
          ed := ed.(code := next);
          assert ed.CLine() == old(ed).CLine();
        case Complete(c) =>
          PerformKeeps(shell, ed, c);
          PerformEscape(shell, ed, c);
          Run(c);
          EndEscape();
        case Unknown =>
          EndEscape();
      }
    }

    method EndEscape()
      requires Valid()
      modifies `escape, `ed
      ensures Valid() && ed == old(ed).(escape := false)
    {
      escape := false;
      ed := ed.(escape := false);
      assert ed.CLine() == old(ed).CLine();
    }

    /** A control character other than the ends of line. */
    method ControlChar(ch: byte) returns (status: Status)
      requires Valid()
      modifies `cmdlen, `cursor, `escape, `ed, `out, line, hist`count
      ensures Valid()
      ensures var e := ControlKey(shell, old(ed), ch); ed == e.ed && out == old(out) + e.out && status == e.status
    {
      if ch == 9 {
        return BadParam;
      }
      status := Done;
      if ch == T.ESC {
        escape := true;
        ed := ed.(escape := true);
        assert ed.CLine() == old(ed).CLine();
      } else if ch == 3 {
        out := out + shell.interrupt;
      } else {
        var command := ControlCommand(ch);
        if command.Some? {
          PerformKeeps(shell, ed, command.value);
          Run(command.value);
        }
      }
    }

    method SetEndl(b: byte)
      requires Valid()
      modifies `endl, `ed
      ensures Valid() && ed == old(ed).(endl := b)
    {
      endl := b;
      ed := ed.(endl := b);
      assert ed.CLine() == old(ed).CLine();
    }

    /** One byte of input. Not called with the end of a line of `RING - 1` bytes: that call never returns. */
    method Key(ch: byte) returns (status: Status)
      requires Valid() && Step(shell, ed, ch).status != Hung
      modifies this, line, hist, hist.buf
      ensures Valid()
      ensures var e := Step(shell, old(ed), ch);
              ed == e.ed && out == old(out) + e.out && ran == old(ran) + e.ran && status == e.status
    {
      status := Done;
      if escape {
        EscapeChar(ch);
        StepNoRun(shell, old(ed), ch);
      } else if ch == T.CR || ch == T.LF {
        if endl == (if ch == T.CR then T.LF else T.CR) {
          SetEndl(0);
        } else {
          SetEndl(ch);
          status := HandleNewline();
        }
      } else {
        StepNoRun(shell, ed, ch);
        SetEndl(0);
        if Control(shell, ch) {
          status := ControlChar(ch);
        } else if ch == SPACE && cmdlen == 0 {
          status := Skipped;
        } else {
          status := PressPrintable(ch);
        }
      }
    }

    /** Since `out` was `out0` and `ran` was `ran0`, `e` was done. */
    ghost predicate Did(out0: Text, ran0: seq<seq<Text>>, e: Effect)
      reads `ed, `out, `ran
    {
      ed == e.ed && out == out0 + e.out && ran == ran0 + e.ran
    }

    /** One byte of a chunk, after `done` of `all` the effect. */
    method NextKey(data: Text, i: nat, ghost out0: Text, ghost ran0: seq<seq<Text>>,
                   ghost all: Effect, ghost done: Effect)
      returns (status: Status, ghost done': Effect)
      requires Valid() && i < |data| && Did(out0, ran0, done)
      requires all == Then(done, Process(shell, ed, data[i..])) && all.status != Hung
      modifies this, line, hist, hist.buf
      ensures Valid() && Did(out0, ran0, done') && status == done'.status
      ensures all == if status != Done then done' else Then(done', Process(shell, ed, data[i + 1..]))
    {
      ProcessFrom(shell, ed, data, i);
      ghost var e := Step(shell, ed, data[i]);
      ThenAssociates(done, e, Process(shell, e.ed, data[i + 1..]));
      Regroup(out0, done.out, e.out);
      Regroup(ran0, done.ran, e.ran);
      status := Key(data[i]);
      done' := Then(done, e);
    }

    /** A chunk of input: each byte in turn, until one stops the call. */
    method ProcessInput(data: Text) returns (status: Status)
      requires Valid() && Process(shell, ed, data).status != Hung
      modifies this, line, hist, hist.buf
      ensures Valid()
      ensures var e := Call(shell, old(ed), data);
              ed == e.ed && out == old(out) + e.out && ran == old(ran) + e.ran && status == e.status
    {
      if |data| == 0 {
        return BadParam;
      }
      var i := 0;
      status := Done;
      ghost var all, done := Process(shell, ed, data), Quiet(ed);
      assert data[0..] == data;
      ThenUnit(all, ed);
      while i < |data|
        invariant i <= |data| && Valid() && status == Done
        invariant Did(old(out), old(ran), done)
        invariant all == Then(done, Process(shell, ed, data[i..]))
      {
        status, done := NextKey(data, i, old(out), old(ran), all, done);
        if status != Done {
          return;
        }
        i := i + 1;
      }
      assert data[i..] == [];
      ThenDone(done, ed);
    }
  }

  /** The rest moved up, the text written before it, NULs to the end. */
  lemma InsertedString(buf: Text, moved: Text, copied: Text, buf': Text, e: Editor, text: Text)
    requires |buf| == LINE + 1 && StringAt(buf, 0, e.CLine()) && buf[LINE] == NUL && T.Graphic(text)
    requires var c, n, m := |e.before|, |e.before| + |e.after|, |text|;
             && n + m <= LINE && Moved(buf, moved, c + m, c, n - c) && Wrote(moved, copied, c, text)
             && |buf'| == LINE + 1
             && (forall k {:trigger buf'[k]} :: 0 <= k < n + m ==> buf'[k] == copied[k])
             && forall k {:trigger buf'[k]} :: n + m <= k <= LINE ==> buf'[k] == NUL
    ensures StringAt(buf', 0, e.(before := e.before + text, stale := []).CLine())
  {
    var t := e.(before := e.before + text, stale := []).CLine();
    forall k | 0 <= k < |t|
      ensures buf'[0 + k] == t[k] && t[k] != NUL
    {
      assert buf'[k] == copied[k];
      if k < |e.before| {
        assert buf[0 + k] == e.CLine()[k] == t[k];
        assert copied[k] == moved[k];
      } else if k >= |e.before| + |text| {
        assert buf[0 + (k - |text|)] == e.CLine()[k - |text|] == t[k];
        assert copied[k] == moved[k];
      } else {
        assert copied[|e.before| + (k - |e.before|)] == text[k - |e.before|];
      }
    }
    assert buf'[|t|] == NUL;
  }

  /** The text before the cursor cut, the rest moved down; what is beyond the buffer does not matter. */
  lemma RemovedString(buf: Text, moved: Text, e: Editor, len: nat)
    requires |buf| == LINE + 1 && StringAt(buf, 0, e.CLine()) && buf[LINE] == NUL && len <= |e.before|
    requires var c, n := |e.before|, |e.before| + |e.after|;
             n + |e.stale| <= LINE && Moved(buf, moved, c - len, c, n - c + len)
    ensures var n := |e.before| + |e.after|;
            StringAt(moved[n := NUL], 0, RemoveBack(e, len).CLine()) && moved[n := NUL][LINE] == NUL
  {
    var n, t := |e.before| + |e.after|, RemoveBack(e, len).CLine();
    forall k | 0 <= k < |t| && k < n
      ensures moved[0 + k] == t[k] && t[k] != NUL
    {
      if k < |e.before| - len {
        assert buf[0 + k] == e.CLine()[k] == t[k];
      } else {
        assert buf[0 + (k + len)] == e.CLine()[k + len] == t[k];
      }
    }
    if |t| < n {
      assert moved[|t|] == buf[0 + |e.CLine()|];
    }
  }

  /** The byte under the cursor cut, the rest moved down. */
  lemma DeletedString(buf: Text, moved: Text, e: Editor)
    requires |buf| == LINE + 1 && StringAt(buf, 0, e.CLine()) && buf[LINE] == NUL && e.after != []
    requires var c, n := |e.before|, |e.before| + |e.after|;
             n + |e.stale| <= LINE && Moved(buf, moved, c, c + 1, n - c + 1)
    ensures var n := |e.before| + |e.after|;
            StringAt(moved[n := NUL], 0, RemoveForward(e).CLine()) && moved[n := NUL][LINE] == NUL
  {
    var n, t := |e.before| + |e.after|, RemoveForward(e).CLine();
    forall k | 0 <= k < |t| && k < n
      ensures moved[0 + k] == t[k] && t[k] != NUL
    {
      if k < |e.before| {
        assert buf[0 + k] == e.CLine()[k] == t[k];
      } else {
        assert buf[0 + (k + 1)] == e.CLine()[k + 1] == t[k];
      }
    }
    if |t| < n {
      assert moved[|t|] == buf[0 + |e.CLine()|];
    }
  }

  /** A record restored and padded, or, when the counter reached 0, an empty line. */
  lemma RestoredString(buf: Text, buf': Text, shown: Text)
    requires |buf| == |buf'| == LINE + 1 && |shown| < LINE && NulFree(shown) && buf[LINE] == NUL
    requires shown == [] || buf[..LINE] == shown + Fill(LINE - |shown|, NUL)
    requires forall k {:trigger buf'[k]} :: 0 <= k < |buf| ==> buf'[k] == if |shown| <= k < LINE then NUL else buf[k]
    ensures StringAt(buf', 0, shown) && buf'[LINE] == NUL
  {
    forall k | 0 <= k < |shown|
      ensures buf'[0 + k] == shown[k] && shown[k] != NUL
    {
      assert buf'[k] == buf[k] == buf[..LINE][k];
    }
    assert buf'[|shown|] == NUL;
  }
}
