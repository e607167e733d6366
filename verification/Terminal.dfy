/**
 A terminal, as far as one line is concerned: how the bytes a program writes change the
 row the cursor is on. Control sequences are those of ECMA-48 (CUF 8.3.20, CUB 8.3.18,
 EL 8.3.41, ED 8.3.39, CUP 8.3.21). The row has no right margin, every byte that is not a
 control character is one graphic character, and below the row there are only blank rows.
 */
module Terminal {
  import opened Bytes

  const ESC: byte := 27
  const BRACKET: byte := 91
  const CR: byte := 13
  const LF: byte := 10
  const BS: byte := 8
  const CUF: byte := 67
  const CUB: byte := 68
  const EL: byte := 75

  datatype Mode = Plain | Escape | Control(param: nat)

  /** The row up to its last written cell, the cursor's column, and the parser of sequences. */
  datatype Term = Term(cells: Text, col: nat, mode: Mode)

  predicate IsControl(b: byte) {
    b <= 31 || b == 127
  }

  predicate Graphic(s: Text) {
    forall i :: 0 <= i < |s| ==> !IsControl(s[i])
  }

  predicate IsDigit(b: byte) {
    48 <= b <= 57
  }

  // ---------------------------------------------------------------------------
  // Interpreting bytes
  // ---------------------------------------------------------------------------

  function Cell(t: Term, i: nat): byte {
    if i < |t.cells| then t.cells[i] else SPACE
  }

  function Max(a: nat, b: nat): nat {
    if a < b then b else a
  }

  /** A graphic character at the cursor. */
  function Put(t: Term, b: byte): Term {
    var cells := if t.col < |t.cells| then t.cells[t.col := b]
                 else t.cells + Fill(t.col - |t.cells|, SPACE) + [b];
    Term(cells, t.col + 1, Plain)
  }

  /** The end of a control sequence with parameter `n`; the ones the editor never writes do nothing. */
  function Finish(t: Term, b: byte, n: nat): Term {
    var u := t.(mode := Plain);
    if b == CUF then u.(col := t.col + Max(n, 1))
    else if b == CUB then u.(col := if Max(n, 1) <= t.col then t.col - Max(n, 1) else 0)
    else if b == EL && n == 0 then u.(cells := if t.col < |t.cells| then t.cells[..t.col] else t.cells)
    else if b == 74 && n == 2 then u.(cells := [])
    else if b == 72 && n == 0 then u.(col := 0)
    else u
  }

  function Step(t: Term, b: byte): Term {
    match t.mode
    case Plain =>
      if b == ESC then t.(mode := Escape)
      else if b == CR then t.(col := 0)
      else if b == LF then t.(cells := [])
      else if b == BS then t.(col := if t.col > 0 then t.col - 1 else 0)
      else if IsControl(b) then t
      else Put(t, b)
    case Escape =>
      t.(mode := if b == BRACKET then Control(0) else Plain)
    case Control(n) =>
      if IsDigit(b) then t.(mode := Control(10 * n + (b - 48))) else Finish(t, b, n)
  }

  function Feed(t: Term, s: Text): Term
    decreases |s|
  {
    if s == [] then t else Feed(Step(t, s[0]), s[1..])
  }

  lemma {:induction false} FeedConcat(t: Term, a: Text, b: Text)
    ensures Feed(t, a + b) == Feed(Feed(t, a), b)
    decreases |a|
  {
    if a == [] {
      assert a + b == b;
    } else {
      assert (a + b)[1..] == a[1..] + b;
      FeedConcat(Step(t, a[0]), a[1..], b);
    }
  }

  lemma FeedOne(t: Term, a: byte)
    ensures Feed(t, [a]) == Step(t, a)
  {
    assert [a][1..] == [];
    assert Feed(Step(t, a), []) == Step(t, a);
  }

  lemma FeedTwo(t: Term, a: byte, b: byte)
    ensures Feed(t, [a, b]) == Step(Step(t, a), b)
  {
    assert [a, b][1..] == [b];
    FeedOne(Step(t, a), b);
  }

  // ---------------------------------------------------------------------------
  // What the row shows
  // ---------------------------------------------------------------------------

  /** The row shows `row` with only blanks after it, and the cursor is in column `col`. */
  ghost predicate Shows(t: Term, row: Text, col: nat) {
    && t.mode == Plain && t.col == col
    && forall i: nat :: Cell(t, i) == if i < |row| then row[i] else SPACE
  }

  /** The first `n` cells are those of `row`. */
  ghost predicate Starts(t: Term, row: Text) {
    forall i: nat :: i < |row| ==> Cell(t, i) == row[i]
  }

  /** Nothing on the row, cursor at its start. */
  ghost predicate Blank(t: Term) {
    Shows(t, [], 0)
  }

  // ---------------------------------------------------------------------------
  // Sequences
  // ---------------------------------------------------------------------------

  /** A positive number in decimal. */
  function Decimal(n: nat): (s: Text)
    ensures forall i :: 0 <= i < |s| ==> IsDigit(s[i])
  {
    if n == 0 then [] else Decimal(n / 10) + [48 + n % 10]
  }

  /** The sequence that moves the cursor by `offset` columns; longer moves are cut at 999. */
  function Move(offset: int): Text {
    if offset == 0 then []
    else if offset > 0 then [ESC, BRACKET] + Decimal(if offset > 999 then 999 else offset) + [CUF]
    else [ESC, BRACKET] + Decimal(if offset < -999 then 999 else -offset) + [CUB]
  }

  const ERASE: Text := [ESC, BRACKET, EL]
  const NEWLINE: Text := [CR, LF]
  const RUBOUT: Text := [BS, SPACE, BS]
  const CLEAR: Text := [ESC, BRACKET, 50, 74]
  const HOME: Text := [ESC, BRACKET, 72]

  lemma {:induction false} FeedDecimal(t: Term, n: nat)
    requires t.mode == Control(0)
    ensures Feed(t, Decimal(n)) == t.(mode := Control(n))
  {
    if n > 0 {
      FeedDecimal(t, n / 10);
      FeedConcat(t, Decimal(n / 10), [48 + n % 10]);
      FeedOne(t.(mode := Control(n / 10)), 48 + n % 10);
    }
  }

  lemma FeedControl(t: Term, n: nat, b: byte)
    requires t.mode == Plain && !IsDigit(b)
    ensures Feed(t, [ESC, BRACKET] + Decimal(n) + [b]) == Finish(t.(mode := Control(n)), b, n)
  {
    var open: Text := [ESC, BRACKET];
    var u := t.(mode := Control(0));
    FeedTwo(t, ESC, BRACKET);
    FeedConcat(t, open, Decimal(n));
    FeedDecimal(u, n);
    FeedConcat(t, open + Decimal(n), [b]);
    FeedOne(t.(mode := Control(n)), b);
  }

  /** Moves within the column range go where they say and leave the cells. */
  lemma FeedMove(t: Term, offset: int)
    requires t.mode == Plain && -999 <= offset <= 999 && t.col + offset >= 0
    ensures Feed(t, Move(offset)) == t.(col := t.col + offset)
  {
    if offset > 0 {
      FeedControl(t, offset, CUF);
    } else if offset < 0 {
      FeedControl(t, -offset, CUB);
    }
  }

  lemma FeedErase(t: Term)
    requires t.mode == Plain
    ensures Feed(t, ERASE) == Finish(t, EL, 0)
    ensures forall i: nat :: Cell(Feed(t, ERASE), i) == if i < t.col then Cell(t, i) else SPACE
  {
    FeedControl(t, 0, EL);
    assert [ESC, BRACKET] + Decimal(0) + [EL] == ERASE;
  }

  /** Graphic characters overwrite the cells from the cursor on. */
  lemma {:induction false} FeedGraphic(t: Term, s: Text)
    requires t.mode == Plain && Graphic(s)
    ensures var u := Feed(t, s);
            && u.mode == Plain && u.col == t.col + |s|
            && forall i: nat :: Cell(u, i) == if t.col <= i < t.col + |s| then s[i - t.col] else Cell(t, i)
    decreases |s|
  {
    if s != [] {
      PutCell(t, s[0]);
      var u := Put(t, s[0]);
      FeedGraphic(u, s[1..]);
    }
  }

  lemma PutCell(t: Term, b: byte)
    ensures forall i: nat :: Cell(Put(t, b), i) == if i == t.col then b else Cell(t, i)
  {
  }

  /** A line break leaves a blank row. */
  lemma FeedNewline(t: Term)
    requires t.mode == Plain
    ensures Blank(Feed(t, NEWLINE))
  {
    FeedTwo(t, CR, LF);
  }
}
