/**
 The console as a terminal without an upper end: the lines written so far and the one being written.  The screen shows
 the most recent of them, except that a line loses its last column when the screen scrolls.
 */
module Terminal {
  import opened ScreenModel

  datatype Term = Term(done: seq<seq<Cell>>, cur: seq<Cell>)

  function Styled(text: string, colour: nat): seq<Cell> {
    seq(|text|, i requires 0 <= i < |text| => Cell(text[i], colour))
  }

  function Break(t: Term): Term {
    Term(t.done + [t.cur], [])
  }

  /** A cell at the end, on a line of its own when the line has 80. */
  function Append(t: Term, c: Cell): Term {
    if |t.cur| >= 80 then Term(t.done + [t.cur], [c]) else Term(t.done, t.cur + [c])
  }

  function TermPrint(t: Term, text: string, colour: nat): Term
    decreases text
  {
    if text == [] then t else TermPrint(Append(t, Cell(text[0], colour)), text[1..], colour)
  }

  function TermAct(t: Term, a: Action): Term {
    match a
    case Say(text, colour) => TermPrint(t, text, colour)
    case SayLine(text, colour) => Break(TermPrint(t, text, colour))
    case NewLine => Break(t)
    case ClearScreen => Term([], [])
  }

  function TermPerform(t: Term, actions: seq<Action>): Term
    decreases actions
  {
    if actions == [] then t else TermPerform(TermAct(t, actions[0]), actions[1..])
  }

  /** A key's echo: a full line is broken at once. */
  function TermPut(t: Term, c: char): Term {
    var u := Append(t, Cell(c, OUTPUT_COLOUR));
    if |u.cur| >= 80 then Break(u) else u
  }

  function TermErase(t: Term): Term {
    if t.cur == [] then t else Term(t.done, t.cur[..|t.cur| - 1])
  }

  // ----- the screen shows it

  function CellAt(cells: seq<Cell>, row: nat, col: nat): Cell
    requires |cells| == CELLS && row < 25 && col < 80
  {
    cells[row * 80 + col]
  }

  /** Row `row` shows `line` and blanks after it, in all columns but the last. */
  ghost predicate RowShows(cells: seq<Cell>, row: nat, line: seq<Cell>)
    requires |cells| == CELLS && row < 25
  {
    |line| <= 80 && forall i: nat :: i < 79 ==> CellAt(cells, row, i) == if i < |line| then line[i] else BLANK
  }

  /** The `j`-th row above the cursor shows the `j`-th last finished line, if there is one. */
  ghost predicate Stands(s: Screen, t: Term, j: nat)
    requires Valid(s)
  {
    j < |t.done| && j < s.row ==> RowShows(s.cells, s.row - 1 - j, t.done[|t.done| - 1 - j])
  }

  /** The cursor stands behind the line being written, and the finished lines are above it, as many as there is room for. */
  ghost predicate OnScreen(s: Screen, t: Term) {
    && Clean(s) && |t.cur| == s.col
    && (forall i: nat :: i < |t.cur| ==> CellAt(s.cells, s.row, i) == t.cur[i])
    && (|t.done| <= s.row || s.row == 24)
    && (forall j: nat :: Stands(s, t, j))
  }

  /** A row of one screen is a row of another. */
  lemma RowCarried(cells: seq<Cell>, row: nat, others: seq<Cell>, other: nat, line: seq<Cell>)
    requires |cells| == CELLS == |others| && row < 25 && other < 25 && RowShows(cells, row, line)
    requires forall i: nat :: i < 79 ==> CellAt(others, other, i) == CellAt(cells, row, i)
    ensures RowShows(others, other, line)
  {
  }

  lemma CleanAt(s: Screen, row: nat, col: nat)
    requires Clean(s) && row < 25 && col < 80 && row * 80 + col >= s.row * 80 + s.col
    ensures CellAt(s.cells, row, col) == BLANK
  {
  }

  /** Where a cell comes from when the screen scrolls. */
  lemma ScrolledAt(cells: seq<Cell>, row: nat, col: nat)
    requires |cells| == CELLS && row < 24 && col < 79
    ensures CellAt(Scrolled(cells), row, col) == CellAt(cells, row + 1, col)
  {
    assert (row * 80 + col) / 80 == row && (row * 80 + col) % 80 == col;
  }

  lemma NewlineOnScreen(s: Screen, t: Term)
    requires OnScreen(s, t)
    ensures OnScreen(Newline(s), Break(t))
  {
    NewlineClean(s);
    forall j: nat ensures Stands(Newline(s), Break(t), j) {
      LineMovesUp(s, t, j);
    }
  }

  /** After a new line: the line just finished stands above the cursor, and the others one row further from it. */
  lemma LineMovesUp(s: Screen, t: Term, j: nat)
    requires OnScreen(s, t)
    ensures Stands(Newline(s), Break(t), j)
  {
    var r := Newline(s);
    if j < |t.done| + 1 && j < r.row {
      var from, to := s.row - j, r.row - 1 - j;
      if j == 0 {
        CurrentRow(s, t);
      } else {
        assert Stands(s, t, j - 1);
      }
      forall i: nat | i < 79 ensures CellAt(r.cells, to, i) == CellAt(s.cells, from, i) {
        if s.row + 1 >= 25 {
          ScrolledAt(s.cells, to, i);
        }
      }
      RowCarried(s.cells, from, r.cells, to, if j == 0 then t.cur else t.done[|t.done| - j]);
    }
  }

  lemma CurrentRow(s: Screen, t: Term)
    requires OnScreen(s, t)
    ensures RowShows(s.cells, s.row, t.cur)
  {
    forall i: nat | i < 79 ensures CellAt(s.cells, s.row, i) == if i < |t.cur| then t.cur[i] else BLANK {
      if i >= |t.cur| {
        CleanAt(s, s.row, i);
      }
    }
  }

  /** A store at the cursor, or just before it, leaves the rows above alone. */
  lemma RowsAboveKept(s: Screen, t: Term, r: Screen, u: Term, at: nat)
    requires OnScreen(s, t) && Valid(r) && r.row == s.row && u.done == t.done && s.row * 80 <= at < CELLS
    requires forall k: nat :: k < CELLS && k != at ==> r.cells[k] == s.cells[k]
    ensures forall j: nat :: Stands(r, u, j)
  {
    forall j: nat ensures Stands(r, u, j) {
      assert Stands(s, t, j);
      if j < |t.done| && j < s.row {
        var row := s.row - 1 - j;
        forall i: nat | i < 79 ensures CellAt(r.cells, row, i) == CellAt(s.cells, row, i) {
        }
        RowCarried(s.cells, row, r.cells, row, t.done[|t.done| - 1 - j]);
      }
    }
  }

  lemma WriteOnScreen(s: Screen, t: Term, c: char, colour: nat)
    requires OnScreen(s, t) && s.col < COLS
    ensures OnScreen(Write(s, c, colour), Append(t, Cell(c, colour)))
  {
    WriteClean(s, c, colour);
    var r, u := Write(s, c, colour), Append(t, Cell(c, colour));
    RowsAboveKept(s, t, r, u, At(s));
    forall i: nat | i < |u.cur| ensures CellAt(r.cells, r.row, i) == u.cur[i] {
      if i < |t.cur| {
        assert CellAt(s.cells, s.row, i) == t.cur[i];
      }
    }
  }

  lemma PrintCharOnScreen(s: Screen, t: Term, c: char, colour: nat)
    requires OnScreen(s, t)
    ensures OnScreen(PrintChar(s, c, colour), Append(t, Cell(c, colour)))
  {
    if s.col >= COLS {
      NewlineOnScreen(s, t);
      WriteOnScreen(Newline(s), Break(t), c, colour);
      assert [] + [Cell(c, colour)] == [Cell(c, colour)];
    } else {
      WriteOnScreen(s, t, c, colour);
    }
  }

  lemma {:induction false} PrintOnScreen(s: Screen, t: Term, text: string, colour: nat)
    requires OnScreen(s, t)
    ensures OnScreen(Print(s, text, colour), TermPrint(t, text, colour))
    decreases text
  {
    if text != [] {
      PrintCharOnScreen(s, t, text[0], colour);
      PrintOnScreen(PrintChar(s, text[0], colour), Append(t, Cell(text[0], colour)), text[1..], colour);
    }
  }

  lemma ActOnScreen(s: Screen, t: Term, a: Action)
    requires OnScreen(s, t)
    ensures OnScreen(Act(s, a), TermAct(t, a))
  {
    match a
    case Say(text, colour) => PrintOnScreen(s, t, text, colour);
    case SayLine(text, colour) =>
      PrintOnScreen(s, t, text, colour);
      NewlineOnScreen(Print(s, text, colour), TermPrint(t, text, colour));
    case NewLine => NewlineOnScreen(s, t);
    case ClearScreen =>
  }

  /** Whatever a command prints, the screen shows the end of what the terminal has. */
  lemma {:induction false} PerformOnScreen(s: Screen, t: Term, actions: seq<Action>)
    requires OnScreen(s, t)
    ensures OnScreen(Perform(s, actions), TermPerform(t, actions))
    decreases actions
  {
    if actions != [] {
      ActOnScreen(s, t, actions[0]);
      PerformOnScreen(Act(s, actions[0]), TermAct(t, actions[0]), actions[1..]);
    }
  }

  lemma PutCharOnScreen(s: Screen, t: Term, c: char)
    requires OnScreen(s, t) && s.col < COLS
    ensures OnScreen(PutChar(s, c), TermPut(t, c))
  {
    WriteOnScreen(s, t, c, OUTPUT_COLOUR);
    if s.col + 1 >= COLS {
      NewlineOnScreen(Write(s, c, OUTPUT_COLOUR), Append(t, Cell(c, OUTPUT_COLOUR)));
    }
  }

  lemma BackspaceOnScreen(s: Screen, t: Term)
    requires OnScreen(s, t)
    ensures OnScreen(Backspace(s), TermErase(t))
  {
    BackspaceClean(s);
    if s.col > 0 {
      var r, u := Backspace(s), TermErase(t);
      RowsAboveKept(s, t, r, u, At(s) - 1);
      forall i: nat | i < |u.cur| ensures CellAt(r.cells, r.row, i) == u.cur[i] {
        assert CellAt(s.cells, s.row, i) == t.cur[i];
      }
    }
  }

  /** At the start of a line of a clean screen nothing is promised about what is above it. */
  lemma BlankTerm(s: Screen)
    requires Clean(s) && s.col == 0
    ensures OnScreen(s, Term([], []))
  {
  }

  // ----- where text goes

  function Rows(t: Term): seq<seq<Cell>> {
    t.done + [t.cur]
  }

  /** Text that fits on the line being written is appended to it. */
  lemma {:induction false} PrintShort(t: Term, text: string, colour: nat)
    requires |t.cur| + |text| <= 80
    ensures TermPrint(t, text, colour) == Term(t.done, t.cur + Styled(text, colour))
    decreases text
  {
    if text == [] {
      assert Styled(text, colour) == [];
    } else {
      var u := Append(t, Cell(text[0], colour));
      PrintShort(u, text[1..], colour);
      assert u.cur + Styled(text[1..], colour) == t.cur + Styled(text, colour);
    }
  }

  lemma {:induction false} PrintJoined(t: Term, a: string, b: string, colour: nat)
    ensures TermPrint(TermPrint(t, a, colour), b, colour) == TermPrint(t, a + b, colour)
    decreases a
  {
    if a == [] {
      assert a + b == b;
    } else {
      assert (a + b)[0] == a[0] && (a + b)[1..] == a[1..] + b;
      PrintJoined(Append(t, Cell(a[0], colour)), a[1..], b, colour);
    }
  }

  /** Lines of text, one after the other. */
  function TermLines(t: Term, lines: seq<string>, colour: nat): Term
    decreases lines
  {
    if lines == [] then t else TermLines(Break(TermPrint(t, lines[0], colour)), lines[1..], colour)
  }

  lemma {:induction false} ShortLines(t: Term, lines: seq<string>, colour: nat)
    requires t.cur == [] && forall l :: l in lines ==> |l| <= 80
    ensures var u := TermLines(t, lines, colour);
            && u.cur == [] && |u.done| == |t.done| + |lines|
            && (forall k :: 0 <= k < |t.done| ==> u.done[k] == t.done[k])
            && forall k :: 0 <= k < |lines| ==> u.done[|t.done| + k] == Styled(lines[k], colour)
    decreases lines
  {
    if lines != [] {
      assert lines[0] in lines;
      PrintShort(t, lines[0], colour);
      assert t.cur + Styled(lines[0], colour) == Styled(lines[0], colour);
      ShortLines(Break(TermPrint(t, lines[0], colour)), lines[1..], colour);
    }
  }

  /**
   Lines of at most 79 characters stand in order on the rows above the cursor, the last one right above it, as many as
   there are rows.
   */
  lemma LinesStand(s: Screen, t: Term, lines: seq<string>, colour: nat, j: nat, i: nat)
    requires t.cur == [] && OnScreen(s, TermLines(t, lines, colour)) && j < |lines| && j < 24
    requires (forall l :: l in lines ==> |l| <= 79) && i < 79
    ensures var line := lines[|lines| - 1 - j];
            j < s.row && CellAt(s.cells, s.row - 1 - j, i) == if i < |line| then Cell(line[i], colour) else Cell(' ', 0x0F)
  {
    ShortLines(t, lines, colour);
    assert Stands(s, TermLines(t, lines, colour), j);
  }

  /** Printing keeps every cell that was there. */
  lemma {:induction false} PrintKeeps(t: Term, text: string, colour: nat, row: nat, col: nat)
    requires row < |Rows(t)| && col < |Rows(t)[row]|
    ensures var u := TermPrint(t, text, colour);
            row < |Rows(u)| && col < |Rows(u)[row]| && Rows(u)[row][col] == Rows(t)[row][col]
    decreases text
  {
    if text != [] {
      PrintKeeps(Append(t, Cell(text[0], colour)), text[1..], colour, row, col);
    }
  }

  /** Text of any length: character `i` follows the cursor by `i` places, 80 to a line, and none is lost. */
  lemma {:induction false} PrintWraps(t: Term, text: string, colour: nat, i: nat)
    requires |t.cur| <= 80 && i < |text|
    ensures var u, row, col := TermPrint(t, text, colour), |t.done| + (|t.cur| + i) / 80, (|t.cur| + i) % 80;
            row < |Rows(u)| && col < |Rows(u)[row]| && Rows(u)[row][col] == Cell(text[i], colour)
    decreases text
  {
    var u := Append(t, Cell(text[0], colour));
    if i == 0 {
      PrintKeeps(u, text[1..], colour, |u.done|, |u.cur| - 1);
      assert |u.done| == |t.done| + |t.cur| / 80 && |u.cur| - 1 == |t.cur| % 80;
    } else {
      PrintWraps(u, text[1..], colour, i - 1);
      if |t.cur| == 80 {
        assert |u.cur| + (i - 1) == i && (80 + i) / 80 == 1 + i / 80 && (80 + i) % 80 == i % 80;
      }
    }
  }
}
