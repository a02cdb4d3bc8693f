/**
 The keyboard handler of drivers/keyboard.c: scan codes, shift and caps lock, and the line buffer, together with the
 echo on the screen.
 */
module Keyboard {
  import opened Words
  import opened Libc
  import opened ScreenModel
  import Console
  import opened Commands
  import Shell
  import opened Terminal

  const BUFFER_SIZE := 256
  const LEFT_SHIFT := 0x2A
  const RIGHT_SHIFT := 0x36
  const CAPS_LOCK := 0x3A
  const BACKSPACE := 0x0E
  const ENTER := 0x1C
  const RELEASED := 0x80

  /** The entries of the two scan-code tables at one index: plain, and with shift. */
  function Key(scan: nat): (char, char) {
    match scan
    case 0x02 => ('1', '!') case 0x03 => ('2', '@') case 0x04 => ('3', '#') case 0x05 => ('4', '$')
    case 0x06 => ('5', '%') case 0x07 => ('6', '^') case 0x08 => ('7', '&') case 0x09 => ('8', '*')
    case 0x0A => ('9', '(') case 0x0B => ('0', ')') case 0x0C => ('-', '_') case 0x0D => ('=', '+')
    case 0x0F => ('\t', '\t')
    case 0x10 => ('q', 'Q') case 0x11 => ('w', 'W') case 0x12 => ('e', 'E') case 0x13 => ('r', 'R')
    case 0x14 => ('t', 'T') case 0x15 => ('y', 'Y') case 0x16 => ('u', 'U') case 0x17 => ('i', 'I')
    case 0x18 => ('o', 'O') case 0x19 => ('p', 'P') case 0x1A => ('[', '{') case 0x1B => (']', '}')
    case 0x1E => ('a', 'A') case 0x1F => ('s', 'S') case 0x20 => ('d', 'D') case 0x21 => ('f', 'F')
    case 0x22 => ('g', 'G') case 0x23 => ('h', 'H') case 0x24 => ('j', 'J') case 0x25 => ('k', 'K')
    case 0x26 => ('l', 'L') case 0x27 => (';', ':') case 0x28 => ('\'', '"') case 0x29 => ('`', '~')
    case 0x2B => ('\\', '|')
    case 0x2C => ('z', 'Z') case 0x2D => ('x', 'X') case 0x2E => ('c', 'C') case 0x2F => ('v', 'V')
    case 0x30 => ('b', 'B') case 0x31 => ('n', 'N') case 0x32 => ('m', 'M')
    case 0x33 => (',', '<') case 0x34 => ('.', '>') case 0x35 => ('/', '?')
    case 0x39 => (' ', ' ')
    case _ => (NUL, NUL)
  }

  // ----- the abstract line editor

  datatype Editor = Editor(line: string, shift: bool, caps: bool)

  /** The character that a key press types, if any; caps lock affects letters only, shift all keys. */
  function Typed(scan: nat, shift: bool, caps: bool): Option<char> {
    if scan in {LEFT_SHIFT, RIGHT_SHIFT, CAPS_LOCK, BACKSPACE, ENTER} || scan >= RELEASED || Key(scan).0 == NUL then None
    else if 'a' <= Key(scan).0 <= 'z' then Some(if shift != caps then Key(scan).1 else Key(scan).0)
    else Some(if shift then Key(scan).1 else Key(scan).0)
  }

  function Edit(e: Editor, scan: nat): Editor {
    if scan == LEFT_SHIFT || scan == RIGHT_SHIFT then e.(shift := true)
    else if scan == LEFT_SHIFT + RELEASED || scan == RIGHT_SHIFT + RELEASED then e.(shift := false)
    else if scan == CAPS_LOCK then e.(caps := !e.caps)
    else if scan == BACKSPACE then (if e.line == [] then e else e.(line := e.line[..|e.line| - 1]))
    else if scan == ENTER then e.(line := [])
    else match Typed(scan, e.shift, e.caps) case None => e case Some(c) => e.(line := e.line + [c])
  }

  /** Typed characters are never NUL, so a line is a C string. */
  lemma TypedPrintable(scan: nat, shift: bool, caps: bool)
    ensures match Typed(scan, shift, caps) case None => true case Some(c) => 0 < c as int < 128
  {
  }

  /** The capital of a letter key is what its shift entry holds: the arithmetic on character codes agrees with the table. */
  lemma CapitalIsShifted(scan: nat)
    ensures 'a' <= Key(scan).0 <= 'z' ==> Key(scan).0 as int - 'a' as int + 'A' as int == Key(scan).1 as int
  {
  }

  /** Backspace undoes the key before it, if that typed a character. */
  lemma BackspaceUndoes(e: Editor, scan: nat)
    requires Typed(scan, e.shift, e.caps).Some?
    ensures Edit(Edit(e, scan), BACKSPACE) == e
  {
    var c := Typed(scan, e.shift, e.caps).value;
    assert (e.line + [c])[..|e.line|] == e.line;
  }

  // ----- runs of the abstract editor

  function EditAll(e: Editor, scans: seq<nat>): Editor
    decreases scans
  {
    if scans == [] then e else EditAll(Edit(e, scans[0]), scans[1..])
  }

  /** The lines that a sequence of scan codes submits. */
  function Lines(e: Editor, scans: seq<nat>): seq<string>
    decreases scans
  {
    if scans == [] then [] else
      (if scans[0] == ENTER then [e.line] else []) + Lines(Edit(e, scans[0]), scans[1..])
  }

  /** Scan codes are bytes, and no line grows beyond what the buffer holds with its NUL. */
  predicate Fits(e: Editor, scans: seq<nat>)
    decreases scans
  {
    scans == [] ||
    (scans[0] < 256 && (Typed(scans[0], e.shift, e.caps).Some? ==> |e.line| + 1 < BUFFER_SIZE)
     && Fits(Edit(e, scans[0]), scans[1..]))
  }

  /** Whether the line has stayed within 72 characters since the last prompt. */
  function NarrowAfter(e: Editor, narrow: bool, scans: seq<nat>): bool
    decreases scans
  {
    if scans == [] then narrow else
      var next := Edit(e, scans[0]);
      NarrowAfter(next, scans[0] == ENTER || (narrow && |next.line| <= LINE_ROOM), scans[1..])
  }

  /** What a key does to the terminal: echo, erasure, or the output of the command. */
  function TermKey(t: Term, e: Editor, scan: nat, env: Env): Term {
    if scan == ENTER then Shell.TermProcessed(t, e.line, env)
    else if scan == BACKSPACE then (if e.line == [] then t else TermErase(t))
    else match Typed(scan, e.shift, e.caps) case None => t case Some(c) => TermPut(t, c)
  }

  function TermKeys(t: Term, e: Editor, scans: seq<nat>, envs: seq<Env>): Term
    requires |envs| == |scans|
    decreases scans
  {
    if scans == [] then t else
      TermKeys(TermKey(t, e, scans[0], envs[0]), Edit(e, scans[0]), scans[1..], envs[1..])
  }

  /** One of the submitted lines is the page-fault command. */
  ghost predicate Faulting(e: Editor, scans: seq<nat>) {
    exists l :: l in Lines(e, scans) && Faults(l)
  }

  lemma FirstScan(e: Editor, scans: seq<nat>)
    requires scans != []
    ensures EditAll(e, scans) == EditAll(Edit(e, scans[0]), scans[1..])
    ensures forall narrow :: NarrowAfter(e, narrow, scans) ==
              NarrowAfter(Edit(e, scans[0]), scans[0] == ENTER || (narrow && |Edit(e, scans[0]).line| <= LINE_ROOM), scans[1..])
    ensures Lines(e, scans) == (if scans[0] == ENTER then [e.line] else []) + Lines(Edit(e, scans[0]), scans[1..])
    ensures Faulting(e, scans) <==> (scans[0] == ENTER && Faults(e.line)) || Faulting(Edit(e, scans[0]), scans[1..])
  {
    var first, rest := if scans[0] == ENTER then [e.line] else [], Lines(Edit(e, scans[0]), scans[1..]);
    assert forall l :: l in Lines(e, scans) <==> l in first || l in rest;
    if scans[0] == ENTER && Faults(e.line) {
      assert e.line in Lines(e, scans);
    }
  }

  lemma EnterDoes(t: Term, e: Editor, env: Env)
    ensures TermKey(t, e, ENTER, env) == Shell.TermProcessed(t, e.line, env) && Edit(e, ENTER) == e.(line := [])
  {
  }

  lemma KeyDoes(t: Term, e: Editor, scan: nat, env: Env)
    requires scan != ENTER && scan != BACKSPACE
    ensures TermKey(t, e, scan, env) == match Typed(scan, e.shift, e.caps) case None => t case Some(c) => TermPut(t, c)
  {
  }

  // ----- the handler

  /** The screen `after` is what shell_process makes of `before` when it gets `line`. */
  ghost predicate IsProcessed(before: Screen, after: Screen, line: string, env: Env) {
    ScreenModel.Valid(before) && after == Shell.Processed(before, line, env)
  }

  class Keyboard {
    const inputBuffer: array<char>
    var inputLen: nat
    var shiftHeld: bool
    var capsLock: bool
    const console: Console.Console
    ghost var line: string
    ghost var submitted: seq<string>    // the lines handed to shell_process so far
    ghost var narrow: bool              // the line has stayed within 72 characters since the prompt
    ghost var term: Term                // what the screen shows the end of

    ghost predicate Valid()
      reads this, inputBuffer, console, console.vga
    {
      && inputBuffer.Length == BUFFER_SIZE
      && inputLen == |line| < BUFFER_SIZE && inputBuffer[..inputLen] == line && Bytes(line)
      && console.Ready() && Clean(console.View()) && console.col < COLS
      && OnScreen(console.View(), term)
      && (if narrow then Shows(console.View(), line) else Behind(console.View(), line))
    }

    ghost function State(): Editor
      reads this
    {
      Editor(line, shiftHeld, capsLock)
    }

    /** The keyboard as it is when the shell has printed its first prompt. */
    constructor (console: Console.Console)
      requires console.Ready() && Shows(console.View(), [])
      ensures Valid() && State() == Editor([], false, false) && submitted == [] && narrow
      ensures this.console == console && fresh(inputBuffer)
      ensures term == Term([], Styled(PROMPT, PROMPT_COLOUR))
    {
      this.console := console;
      inputBuffer := new char[BUFFER_SIZE](_ => NUL);
      inputLen, shiftHeld, capsLock := 0, false, false;
      line, submitted, narrow, term := [], [], true, Term([], Styled(PROMPT, PROMPT_COLOUR));
    }

    method TypeChar(c: char)
      requires Valid() && 0 < c as int < 256 && |line| + 1 < BUFFER_SIZE
      modifies this`inputLen, this`line, this`narrow, this`term, inputBuffer, console, console.vga
      ensures Valid() && line == old(line) + [c] && narrow == (old(narrow) && |line| <= LINE_ROOM)
      ensures term == TermPut(old(term), c)
    {
      PutCharOnScreen(console.View(), term, c);
      term := TermPut(term, c);
      if narrow && |line| < LINE_ROOM {
        PutCharShows(console.View(), line, c);
      } else {
        PutCharBehind(console.View(), line, c);
      }
      PutCharClean(console.View(), c);
      inputBuffer[inputLen] := c;
      inputLen := inputLen + 1;
      console.ShellPutChar(c);
      line := line + [c];
      narrow := narrow && |line| <= LINE_ROOM;
    }

    method EraseChar()
      requires Valid()
      modifies this`inputLen, this`line, this`term, inputBuffer, console, console.vga
      ensures Valid() && line == if old(line) == [] then [] else old(line)[..|old(line)| - 1]
      ensures term == (if old(line) == [] then old(term) else TermErase(old(term)))
      ensures State() == Edit(old(State()), BACKSPACE)
    {
      if inputLen > 0 {
        BackspaceOnScreen(console.View(), term);
        term := TermErase(term);
        if narrow {
          BackspaceShows(console.View(), line);
        } else {
          BackspaceBehind(console.View(), line);
        }
        BackspaceClean(console.View());
        inputLen := inputLen - 1;
        inputBuffer[inputLen] := NUL;
        console.ShellBackspace();
        line := line[..|line| - 1];
      }
    }

    /** Enter: the NUL-terminated buffer goes to the shell, and the line starts over. */
    method Submit(env: Env) returns (r: Outcome<()>)
      requires Valid()
      modifies this`inputLen, this`line, this`submitted, this`narrow, this`term, inputBuffer, console, console.vga
      ensures r == Panicked <==> Faults(old(line))
      ensures r.Done? ==> term == Shell.TermProcessed(old(term), old(line), env)
      ensures r.Done? ==> Valid() && line == [] && submitted == old(submitted) + [old(line)] && narrow
      ensures r.Done? ==> IsProcessed(old(console.View()), console.View(), old(line), env)
    {
      ghost var t := Shell.TermProcessed(term, line, env);
      r := RunShell(env);
      if r.Done? {
        StartOver(t);
      }
    }

    /** The call of shell_process. */
    method RunShell(env: Env) returns (r: Outcome<()>)
      requires Valid()
      modifies inputBuffer, console, console.vga
      ensures r == Panicked <==> Faults(line)
      ensures r.Done? ==> console.Ready() && IsProcessed(old(console.View()), console.View(), line, env)
      ensures r.Done? ==> Shows(console.View(), []) && OnScreen(console.View(), Shell.TermProcessed(term, line, env))
    {
      inputBuffer[inputLen] := NUL;
      assert inputBuffer[..][0..0 + |line|] == line;
      Shell.ProcessedShows(console.View(), line, env);
      Shell.ProcessedOnScreen(console.View(), term, line, env);
      r := Shell.ShellProcess(console, inputBuffer, line, env);
    }

    /** What keyboard_handler does once the shell is back at its prompt. */
    method StartOver(ghost t: Term)
      requires inputBuffer.Length == BUFFER_SIZE && console.Ready() && Shows(console.View(), [])
      requires OnScreen(console.View(), t)
      modifies this`inputLen, this`line, this`submitted, this`narrow, this`term, inputBuffer
      ensures Valid() && line == [] && submitted == old(submitted) + [old(line)] && narrow && term == t
    {
      term := t;
      submitted := submitted + [line];
      inputLen := 0;
      inputBuffer[0] := NUL;
      line, narrow := [], true;
    }

    /** The first cases of keyboard_handler: shift pressed, shift released, caps lock. */
    method SetModifiers(scan: nat) returns (done: bool)
      requires Valid() && scan < 256
      modifies this`shiftHeld, this`capsLock
      ensures Valid()
      ensures done <==> scan in {LEFT_SHIFT, RIGHT_SHIFT, 0xAA, 0xB6, CAPS_LOCK}
      ensures done ==> State() == Edit(old(State()), scan)
      ensures !done ==> State() == old(State())
    {
      done := true;
      if scan == LEFT_SHIFT || scan == RIGHT_SHIFT {
        shiftHeld := true;
        return;
      }
      if scan == 0xAA || scan == 0xB6 {
        shiftHeld := false;
        return;
      }
      if scan == CAPS_LOCK {
        capsLock := !capsLock;
        return;
      }
      done := false;
    }

    /** keyboard_handler, given the scan code read from the port. */
    method Handle(scan: nat, env: Env) returns (r: Outcome<()>)
      requires Valid() && scan < 256
      requires Typed(scan, shiftHeld, capsLock).Some? ==> |line| + 1 < BUFFER_SIZE
      modifies this`inputLen, this`shiftHeld, this`capsLock, this`line, this`submitted, this`narrow, this`term
      modifies inputBuffer, console, console.vga
      ensures r == Panicked <==> scan == ENTER && Faults(old(line))
      ensures r.Done? ==> term == TermKey(old(term), old(State()), scan, env)
      ensures r.Done? ==> Valid() && State() == Edit(old(State()), scan)
      ensures r.Done? ==> submitted == if scan == ENTER then old(submitted) + [old(line)] else old(submitted)
      ensures r.Done? ==> (narrow <==> scan == ENTER || (old(narrow) && |line| <= LINE_ROOM))
    {
      var done := SetModifiers(scan);
      if done {
        return Done(());
      }
      r := EditLine(scan, env);
    }

    /** keyboard_handler past shift and caps lock: backspace, enter, and the keys that type. */
    method EditLine(scan: nat, env: Env) returns (r: Outcome<()>)
      requires Valid() && scan < 256 && scan !in {LEFT_SHIFT, RIGHT_SHIFT, 0xAA, 0xB6, CAPS_LOCK}
      requires Typed(scan, shiftHeld, capsLock).Some? ==> |line| + 1 < BUFFER_SIZE
      modifies this`inputLen, this`line, this`submitted, this`narrow, this`term, inputBuffer, console, console.vga
      ensures r == Panicked <==> scan == ENTER && Faults(old(line))
      ensures r.Done? ==> term == TermKey(old(term), old(State()), scan, env)
      ensures r.Done? ==> Valid() && State() == Edit(old(State()), scan)
      ensures r.Done? ==> submitted == if scan == ENTER then old(submitted) + [old(line)] else old(submitted)
      ensures r.Done? ==> (narrow <==> scan == ENTER || (old(narrow) && |line| <= LINE_ROOM))
    {
      if scan == BACKSPACE {
        EraseChar();
        return Done(());
      }
      if scan == ENTER {
        r := Enter(env);
        return;
      }
      KeyDoes(term, State(), scan, env);
      HandleKey(scan);
      r := Done(());
    }

    /** Enter, as a key of the editor and the terminal. */
    method Enter(env: Env) returns (r: Outcome<()>)
      requires Valid()
      modifies this`inputLen, this`line, this`submitted, this`narrow, this`term, inputBuffer, console, console.vga
      ensures r == Panicked <==> Faults(old(line))
      ensures r.Done? ==> term == TermKey(old(term), old(State()), ENTER, env)
      ensures r.Done? ==> Valid() && State() == Edit(old(State()), ENTER)
      ensures r.Done? ==> submitted == old(submitted) + [old(line)] && narrow
    {
      EnterDoes(term, State(), env);
      r := Submit(env);
    }

    /** The rest of keyboard_handler: releases of other keys, and keys that type. */
    method HandleKey(scan: nat)
      requires Valid() && scan < 256 && scan !in {LEFT_SHIFT, RIGHT_SHIFT, 0xAA, 0xB6, CAPS_LOCK, BACKSPACE, ENTER}
      requires Typed(scan, shiftHeld, capsLock).Some? ==> |line| + 1 < BUFFER_SIZE
      modifies this`inputLen, this`line, this`narrow, this`term, inputBuffer, console, console.vga
      ensures Valid()
      ensures match Typed(scan, shiftHeld, capsLock)
              case None => line == old(line) && narrow == old(narrow) && term == old(term)
              case Some(c) =>
                line == old(line) + [c] && narrow == (old(narrow) && |line| <= LINE_ROOM) && term == TermPut(old(term), c)
      ensures State() == Edit(old(State()), scan)
    {
      if scan >= RELEASED {
        return;
      }
      var c := Key(scan).0;
      if c == NUL {
        return;
      }
      if 'a' <= c <= 'z' {
        if shiftHeld != capsLock {
          CapitalIsShifted(scan);
          c := (c as int - 'a' as int + 'A' as int) as char;
        }
      } else if shiftHeld {
        c := Key(scan).1;
      }
      TypedPrintable(scan, shiftHeld, capsLock);
      TypeChar(c);
    }

    /**
     Any sequence of scan codes whose lines fit the buffer: the lines handed to the shell, and the line left in the
     buffer, are those of the abstract editor, unless one of them is the page-fault command, which halts.  The screen
     shows the end of the terminal that the keys and the commands write on, and the row of the cursor shows prompt and
     line exactly when the line has stayed within 72 characters since the prompt.  `envs` is what the rest of the kernel
     reports at each key.
     */
    method HandleAll(scans: seq<nat>, envs: seq<Env>) returns (r: Outcome<()>)
      requires Valid() && Fits(State(), scans) && |envs| == |scans|
      modifies this`inputLen, this`shiftHeld, this`capsLock, this`line, this`submitted, this`narrow, this`term
      modifies inputBuffer, console, console.vga
      ensures r.Done? ==> OnScreen(console.View(), TermKeys(old(term), old(State()), scans, envs))
      ensures r == Panicked <==> Faulting(old(State()), scans)
      ensures r.Done? ==> Valid() && State() == EditAll(old(State()), scans)
      ensures r.Done? ==> submitted == old(submitted) + Lines(old(State()), scans)
      ensures r.Done? ==> narrow == NarrowAfter(old(State()), old(narrow), scans)
      ensures r.Done? ==> (Shows(console.View(), line) <==> NarrowAfter(old(State()), old(narrow), scans))
      decreases scans
    {
      if scans == [] {
        return Done(());
      }
      ghost var e, t, before := State(), term, submitted;
      ghost var first := if scans[0] == ENTER then [line] else [];
      FirstScan(e, scans);
      FirstTerm(t, e, scans, envs);
      r := Handle(scans[0], envs[0]);
      if r.Done? {
        assert State() == Edit(e, scans[0]) && submitted == before + first;
        r := HandleAll(scans[1..], envs[1..]);
        Associates(before, first, Lines(Edit(e, scans[0]), scans[1..]));
      }
    }
  }

  lemma FirstTerm(t: Term, e: Editor, scans: seq<nat>, envs: seq<Env>)
    requires scans != [] && |envs| == |scans|
    ensures TermKeys(t, e, scans, envs) == TermKeys(TermKey(t, e, scans[0], envs[0]), Edit(e, scans[0]), scans[1..], envs[1..])
  {
  }

  lemma Associates(a: seq<string>, b: seq<string>, c: seq<string>)
    ensures (a + b) + c == a + (b + c)
    ensures b == [] ==> a + b == a
  {
  }
}
