/**
 The text screen with the shell's cursor, and what the printing routines do to it.
 */
module ScreenModel {

  const COLS := 80
  const ROWS := 25
  const CELLS := 2000
  const WHITE_ON_BLACK := 0x0F
  const PROMPT_COLOUR := 0x0A
  const OUTPUT_COLOUR := 0x0F
  const ERROR_COLOUR := 0x0C
  const PROMPT := "INPUT> "

  datatype Cell = Cell(c: char, colour: nat)

  const BLANK := Cell(' ', WHITE_ON_BLACK)

  datatype Screen = Screen(cells: seq<Cell>, row: nat, col: nat)

  /** The cursor is on the screen, or just past the end of a row. */
  ghost predicate Valid(s: Screen) {
    |s.cells| == CELLS && s.row < ROWS && s.col <= COLS
  }

  function At(s: Screen): nat {
    s.row * COLS + s.col
  }

  /** Everything from the cursor on is blank. */
  ghost predicate Clean(s: Screen) {
    Valid(s) && forall i :: At(s) <= i < CELLS ==> s.cells[i] == BLANK
  }

  /** vga_scroll: rows move up, except that the last column of all rows but the last stays; the last row is blank. */
  function Scrolled(cells: seq<Cell>): (r: seq<Cell>)
    requires |cells| == CELLS
    ensures |r| == CELLS
  {
    seq(CELLS, i requires 0 <= i < CELLS =>
      if i / COLS == ROWS - 1 then BLANK else if i % COLS == COLS - 1 then cells[i] else cells[i + COLS])
  }

  function Newline(s: Screen): Screen
    requires Valid(s)
  {
    if s.row + 1 >= ROWS then Screen(Scrolled(s.cells), ROWS - 1, 0) else Screen(s.cells, s.row + 1, 0)
  }

  function Write(s: Screen, c: char, colour: nat): Screen
    requires Valid(s) && s.col < COLS
  {
    Screen(s.cells[At(s) := Cell(c, colour)], s.row, s.col + 1)
  }

  /** One character of `print`: wrap first if the row is full. */
  function PrintChar(s: Screen, c: char, colour: nat): Screen
    requires Valid(s)
  {
    Write(if s.col >= COLS then Newline(s) else s, c, colour)
  }

  function Print(s: Screen, text: string, colour: nat): (r: Screen)
    requires Valid(s)
    ensures Valid(r)
    decreases text
  {
    if text == [] then s else Print(PrintChar(s, text[0], colour), text[1..], colour)
  }

  /** shell_putchar: wrap after the character, so that the cursor is never left past the end of a row. */
  function PutChar(s: Screen, c: char): Screen
    requires Valid(s) && s.col < COLS
  {
    var w := Write(s, c, OUTPUT_COLOUR);
    if w.col >= COLS then Newline(w) else w
  }

  function Backspace(s: Screen): Screen
    requires Valid(s)
  {
    if s.col > 0 then Screen(s.cells[At(s) - 1 := Cell(' ', OUTPUT_COLOUR)], s.row, s.col - 1) else s
  }

  function Cleared(): Screen {
    Screen(seq(CELLS, _ => BLANK), 0, 0)
  }

  // ----- a command's output

  datatype Action = Say(text: string, colour: nat) | SayLine(text: string, colour: nat) | NewLine | ClearScreen

  function Act(s: Screen, a: Action): (r: Screen)
    requires Valid(s)
    ensures Valid(r)
  {
    match a
    case Say(text, colour) => Print(s, text, colour)
    case SayLine(text, colour) => Newline(Print(s, text, colour))
    case NewLine => Newline(s)
    case ClearScreen => Cleared()
  }

  function Perform(s: Screen, actions: seq<Action>): (r: Screen)
    requires Valid(s)
    ensures Valid(r)
    decreases actions
  {
    if actions == [] then s else Perform(Act(s, actions[0]), actions[1..])
  }

  /** The output ends by going to a new line or clearing the screen. */
  predicate EndsLine(actions: seq<Action>) {
    actions != [] && !actions[|actions| - 1].Say?
  }

  // ----- what every routine keeps

  lemma NewlineClean(s: Screen)
    requires Clean(s)
    ensures Clean(Newline(s)) && Newline(s).col == 0
  {
  }

  lemma WriteClean(s: Screen, c: char, colour: nat)
    requires Clean(s) && s.col < COLS
    ensures Clean(Write(s, c, colour))
  {
  }

  lemma {:induction false} PrintClean(s: Screen, text: string, colour: nat)
    requires Clean(s)
    ensures Clean(Print(s, text, colour))
    decreases text
  {
    if text != [] {
      NewlineClean(s);
      WriteClean(if s.col >= COLS then Newline(s) else s, text[0], colour);
      PrintClean(PrintChar(s, text[0], colour), text[1..], colour);
    }
  }

  lemma PutCharClean(s: Screen, c: char)
    requires Clean(s) && s.col < COLS
    ensures Clean(PutChar(s, c)) && PutChar(s, c).col < COLS
  {
    WriteClean(s, c, OUTPUT_COLOUR);
    NewlineClean(Write(s, c, OUTPUT_COLOUR));
  }

  lemma BackspaceClean(s: Screen)
    requires Clean(s)
    ensures Clean(Backspace(s))
  {
  }

  /** A command's output keeps the rest of the screen blank, and ends at column 0 if it ends a line. */
  lemma {:induction false} PerformClean(s: Screen, actions: seq<Action>)
    requires Clean(s)
    ensures Clean(Perform(s, actions))
    ensures EndsLine(actions) ==> Perform(s, actions).col == 0
    decreases actions
  {
    if actions != [] {
      var a := actions[0];
      match a {
        case Say(text, colour) => PrintClean(s, text, colour);
        case SayLine(text, colour) => PrintClean(s, text, colour); NewlineClean(Print(s, text, colour));
        case NewLine => NewlineClean(s);
        case ClearScreen =>
      }
      PerformClean(Act(s, a), actions[1..]);
    }
  }

  // ----- the prompt and the line behind it

  const LINE_ROOM := 72   // characters after the prompt that leave the cursor on its row

  /** The prompt row shows the prompt and `line`, nothing else, with the cursor right behind. */
  ghost predicate Shows(s: Screen, line: string) {
    && Clean(s) && |line| <= LINE_ROOM && s.col == |PROMPT| + |line|
    && (forall i :: 0 <= i < |PROMPT| ==> s.cells[s.row * COLS + i] == Cell(PROMPT[i], PROMPT_COLOUR))
    && (forall i :: 0 <= i < |line| ==> s.cells[s.row * COLS + |PROMPT| + i] == Cell(line[i], OUTPUT_COLOUR))
  }

  lemma {:induction false} PrintRow(s: Screen, text: string, colour: nat)
    requires Valid(s) && s.col + |text| <= COLS
    ensures var r := Print(s, text, colour);
            && r.row == s.row && r.col == s.col + |text|
            && (forall i :: 0 <= i < |text| ==> r.cells[At(s) + i] == Cell(text[i], colour))
            && (forall i :: 0 <= i < At(s) ==> r.cells[i] == s.cells[i])
    decreases text
  {
    if text != [] {
      PrintRow(PrintChar(s, text[0], colour), text[1..], colour);
    }
  }

  /** Printing the prompt at the start of a row leaves the cursor at column 7 behind an empty line. */
  lemma PromptShows(s: Screen)
    requires Clean(s) && s.col == 0
    ensures Shows(Print(s, PROMPT, PROMPT_COLOUR), [])
  {
    PrintClean(s, PROMPT, PROMPT_COLOUR);
    PrintRow(s, PROMPT, PROMPT_COLOUR);
  }

  /** While the line stays within 72 characters, typing and erasing keep the row equal to prompt and line. */
  lemma PutCharShows(s: Screen, line: string, c: char)
    requires Shows(s, line) && |line| < LINE_ROOM
    ensures Shows(PutChar(s, c), line + [c])
  {
    PutCharClean(s, c);
  }

  lemma BackspaceShows(s: Screen, line: string)
    requires Shows(s, line) && line != []
    ensures Shows(Backspace(s), line[..|line| - 1])
  {
    BackspaceClean(s);
  }

  /** The cursor is further left than prompt and line would put it, so its row does not show them. */
  ghost predicate Behind(s: Screen, line: string) {
    s.col < |PROMPT| + |line| && !Shows(s, line)
  }

  /** Once the line has outgrown its row, neither typing nor erasing makes the row show prompt and line again. */
  lemma PutCharBehind(s: Screen, line: string, c: char)
    requires Clean(s) && s.col < COLS
    requires Behind(s, line) || (Shows(s, line) && |line| == LINE_ROOM)
    ensures Behind(PutChar(s, c), line + [c])
  {
  }

  lemma BackspaceBehind(s: Screen, line: string)
    requires Clean(s) && Behind(s, line) && line != []
    ensures Behind(Backspace(s), line[..|line| - 1])
  {
  }

  /** At 73 characters the cursor moves on, and erasing no longer touches the screen. */
  lemma EchoLost(s: Screen, line: string, c: char)
    requires Shows(s, line) && |line| == LINE_ROOM
    ensures PutChar(s, c).col == 0 && Backspace(PutChar(s, c)) == PutChar(s, c)
  {
  }
}
