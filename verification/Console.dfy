/**
 drivers/vga.c and the cursor routines of shell/shell.c, over the array of screen cells.
 */
module Console {
  import opened ScreenModel

  class Console {
    const vga: array<Cell>
    var row: nat
    var col: nat

    ghost predicate Ready()
      reads this, vga
    {
      vga.Length == CELLS && Valid(View())
    }

    ghost function View(): Screen
      reads this, vga
    {
      Screen(vga[..], row, col)
    }

    constructor (vga: array<Cell>)
      requires vga.Length == CELLS
      ensures this.vga == vga && Ready() && row == 0 && col == 0
    {
      this.vga := vga;
      row, col := 0, 0;
    }

    /** vga_write_char; the index is on the screen because the cursor is. */
    method VgaWriteChar(c: nat, r: nat, ch: char, colour: nat)
      requires vga.Length == CELLS && r < ROWS && c < COLS
      modifies vga
      ensures r * COLS + c < CELLS && vga[..] == old(vga[..])[r * COLS + c := Cell(ch, colour)]
    {
      vga[r * COLS + c] := Cell(ch, colour);
    }

    method VgaClear()
      requires vga.Length == CELLS
      modifies vga
      ensures vga[..] == Cleared().cells
    {
      for i := 0 to CELLS
        invariant forall k :: 0 <= k < i ==> vga[k] == BLANK
      {
        vga[i] := BLANK;
      }
    }

    /** Copying upwards in place: a row is overwritten only after the row above has taken its contents. */
    method VgaScroll()
      requires vga.Length == CELLS
      modifies vga
      ensures vga[..] == Scrolled(old(vga[..]))
    {
      for r := 0 to ROWS - 1
        invariant forall i :: 0 <= i < CELLS ==>
                    vga[i] == if i < r * COLS && i % COLS != COLS - 1 then old(vga[i + COLS]) else old(vga[i])
      {
        CopyRow(r);
      }
      for c := 0 to COLS
        invariant forall i :: 0 <= i < CELLS ==>
                    vga[i] == if (ROWS - 1) * COLS <= i < (ROWS - 1) * COLS + c then BLANK
                              else if i < (ROWS - 1) * COLS && i % COLS != COLS - 1 then old(vga[i + COLS])
                              else old(vga[i])
      {
        vga[(ROWS - 1) * COLS + c] := BLANK;
      }
    }

    /** The inner loop of vga_scroll. */
    method CopyRow(r: nat)
      requires vga.Length == CELLS && r < ROWS - 1
      modifies vga
      ensures forall i :: 0 <= i < CELLS ==>
                vga[i] == if r * COLS <= i < r * COLS + COLS - 1 then old(vga[i + COLS]) else old(vga[i])
    {
      for c := 0 to COLS - 1
        invariant forall i :: 0 <= i < CELLS ==>
                    vga[i] == if r * COLS <= i < r * COLS + c then old(vga[i + COLS]) else old(vga[i])
      {
        vga[r * COLS + c] := vga[(r + 1) * COLS + c];
      }
    }

    method NextLine()
      requires Ready()
      modifies this, vga
      ensures Ready() && View() == Newline(old(View()))
    {
      col := 0;
      row := row + 1;
      if row >= ROWS {
        VgaScroll();
        row := ROWS - 1;
      }
    }

    method PrintText(text: string, colour: nat)
      requires Ready()
      modifies this, vga
      ensures Ready() && View() == Print(old(View()), text, colour)
    {
      for i := 0 to |text|
        invariant Ready() && Print(View(), text[i..], colour) == Print(old(View()), text, colour)
      {
        assert text[i..][0] == text[i] && text[i..][1..] == text[i + 1..];
        if col >= COLS {
          NextLine();
        }
        VgaWriteChar(col, row, text[i], colour);
        col := col + 1;
      }
    }

    method PrintLine(text: string, colour: nat)
      requires Ready()
      modifies this, vga
      ensures Ready() && View() == Newline(Print(old(View()), text, colour))
    {
      PrintText(text, colour);
      NextLine();
    }

    method ClearAll()
      requires Ready()
      modifies this, vga
      ensures Ready() && View() == Cleared()
    {
      VgaClear();
      row, col := 0, 0;
    }

    method ShellPutChar(c: char)
      requires Ready() && col < COLS
      modifies this, vga
      ensures Ready() && View() == PutChar(old(View()), c)
    {
      VgaWriteChar(col, row, c, OUTPUT_COLOUR);
      col := col + 1;
      if col >= COLS {
        NextLine();
      }
    }

    method ShellBackspace()
      requires Ready()
      modifies this, vga
      ensures Ready() && View() == Backspace(old(View()))
    {
      if col > 0 {
        col := col - 1;
        VgaWriteChar(col, row, ' ', OUTPUT_COLOUR);
      }
    }

    /** The print calls of a command, in order. */
    method PerformAll(actions: seq<Action>)
      requires Ready()
      modifies this, vga
      ensures Ready() && View() == Perform(old(View()), actions)
    {
      for i := 0 to |actions|
        invariant Ready() && Perform(View(), actions[i..]) == Perform(old(View()), actions)
      {
        assert actions[i..][0] == actions[i] && actions[i..][1..] == actions[i + 1..];
        match actions[i]
        case Say(text, colour) => PrintText(text, colour);
        case SayLine(text, colour) => PrintLine(text, colour);
        case NewLine => NextLine();
        case ClearScreen => ClearAll();
      }
    }
  }
}
