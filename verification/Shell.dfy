/**
 shell_process of shell/shell.c: split the input buffer in place, pick the command, print its output and the prompt.
 */
module Shell {
  import opened Words
  import opened Libc
  import opened ScreenModel
  import Console
  import opened Commands
  import opened Terminal

  // ----- C strings inside the input buffer

  lemma CStringTail(buf: seq<char>, at: nat, s: string, n: nat)
    requires CString(buf, at, s) && n <= |s|
    ensures CString(buf, at + n, s[n..])
  {
    assert buf[at + n..at + |s|] == buf[at..at + |s|][n..];
  }

  /** Writing a NUL at position `n` of a string leaves two strings. */
  lemma CStringCut(buf: seq<char>, at: nat, s: string, n: nat)
    requires CString(buf, at, s) && n < |s|
    ensures CString(buf[at + n := NUL], at, s[..n])
    ensures CString(buf[at + n := NUL], at + n + 1, s[n + 1..])
  {
    var cut := buf[at + n := NUL];
    assert cut[at..at + n] == buf[at..at + |s|][..n];
    assert cut[at + n + 1..at + |s|] == buf[at..at + |s|][n + 1..];
  }

  lemma {:induction false} SkipOne(s: string, i: nat)
    requires i < |s| && s[i] == ' ' && SkipSpaces(s) == SkipSpaces(s[i..])
    ensures SkipSpaces(s) == SkipSpaces(s[i + 1..])
  {
    assert s[i..][1..] == s[i + 1..];
  }

  method Tokens(buf: array<char>, ghost line: string) returns (found: bool, cmd: nat, args: Option<nat>)
    requires CString(buf[..], 0, line)
    modifies buf
    ensures match Tokenise(line)
            case Nothing => !found
            case Parsed(c, a) =>
              && found && CString(buf[..], cmd, c) && (args.Some? <==> a.Some?)
              && (a.Some? ==> CString(buf[..], args.value, a.value))
  {
    args := None;
    cmd := Start(buf, line);
    ghost var rest := SkipSpaces(line);
    var n := Strlen(buf, cmd, rest);
    if n == 0 {
      found := false;
      return;
    }
    found := true;
    var j := WordEnd(buf, cmd, rest);
    CharAt(buf[..], cmd, rest, j);
    WordLengthIs(rest);
    if buf[cmd + j] == ' ' {
      ghost var before := buf[..];
      CStringCut(before, cmd, rest, j);
      buf[cmd + j] := NUL;
      assert buf[..] == before[cmd + j := NUL];
      args := Some(cmd + j + 1);
    }
    assert rest[..|rest|] == rest;
  }

  /** `while (input[i] == ' ')` */
  method Start(buf: array<char>, ghost line: string) returns (i: nat)
    requires CString(buf[..], 0, line)
    ensures i <= |line| && line[i..] == SkipSpaces(line) && CString(buf[..], i, SkipSpaces(line))
  {
    i := 0;
    assert line[0..] == line;
    CharAt(buf[..], 0, line, 0);
    while buf[i] == ' '
      invariant i <= |line| && SkipSpaces(line) == SkipSpaces(line[i..])
      invariant buf[i] == if i < |line| then line[i] else NUL
      decreases |line| - i
    {
      SkipOne(line, i);
      i := i + 1;
      CharAt(buf[..], 0, line, i);
    }
    CStringTail(buf[..], 0, line, i);
  }

  /** `while (cmd[j] != ' ' && cmd[j] != 0)` */
  method WordEnd(buf: array<char>, cmd: nat, ghost rest: string) returns (j: nat)
    requires CString(buf[..], cmd, rest)
    ensures j == WordLength(rest)
  {
    j := 0;
    assert rest[0..] == rest;
    CharAt(buf[..], cmd, rest, 0);
    while buf[cmd + j] != ' ' && buf[cmd + j] != NUL
      invariant j <= |rest| && WordLength(rest) == j + WordLength(rest[j..])
      invariant buf[cmd + j] == if j < |rest| then rest[j] else NUL
      invariant buf[cmd + j] == NUL <==> j == |rest|
      decreases |rest| - j
    {
      assert rest[j..][1..] == rest[j + 1..];
      j := j + 1;
      CharAt(buf[..], cmd, rest, j);
    }
  }

  /** `strcmp(cmd, name) == 0` */
  method Is(buf: array<char>, cmd: nat, name: string, ghost c: string) returns (same: bool)
    requires CString(buf[..], cmd, c) && Bytes(c) && Bytes(name) && TAB !in name && NUL !in name
    ensures same <==> c == name
  {
    var r := Strcmp(buf, cmd, name, c);
    CompareZeroIff(c, name);
    same := r == 0;
  }

  // The chain of comparisons in parse_and_run, four at a time.

  method Select(buf: array<char>, cmd: nat, ghost c: string) returns (r: Command)
    requires CString(buf[..], cmd, c) && Bytes(c)
    ensures r == Named(c)
  {
    var same := Is(buf, cmd, "help", c);
    if same {
      return Help;
    }
    same := Is(buf, cmd, "clear", c);
    if same {
      return Clear;
    }
    same := Is(buf, cmd, "mem", c);
    if same {
      return Mem;
    }
    same := Is(buf, cmd, "echo", c);
    if same {
      return Echo;
    }
    r := SelectStatus(buf, cmd, c);
  }

  method SelectStatus(buf: array<char>, cmd: nat, ghost c: string) returns (r: Command)
    requires CString(buf[..], cmd, c) && Bytes(c)
    ensures r == NamedStatus(c)
  {
    var same := Is(buf, cmd, "uptime", c);
    if same {
      return Uptime;
    }
    same := Is(buf, cmd, "memmap", c);
    if same {
      return Memmap;
    }
    same := Is(buf, cmd, "pmm", c);
    if same {
      return Pmm;
    }
    same := Is(buf, cmd, "heaptest", c);
    if same {
      return HeapTest;
    }
    r := SelectTest(buf, cmd, c);
  }

  method SelectTest(buf: array<char>, cmd: nat, ghost c: string) returns (r: Command)
    requires CString(buf[..], cmd, c) && Bytes(c)
    ensures r == NamedTest(c)
  {
    var same := Is(buf, cmd, "paging", c);
    if same {
      return PagingInfo;
    }
    same := Is(buf, cmd, "pagefault", c);
    if same {
      return PageFault;
    }
    same := Is(buf, cmd, "threadcount", c);
    if same {
      return ThreadCount;
    }
    same := Is(buf, cmd, "rawmem", c);
    if same {
      return RawMem;
    }
    r := Unknown;
  }

  /** The characters that print walks over, up to the NUL. */
  method StringAt(buf: array<char>, at: nat, ghost s: string) returns (r: string)
    requires CString(buf[..], at, s)
    ensures r == s
  {
    var n := Strlen(buf, at, s);
    r := buf[at..at + n];
  }

  /** parse_and_run; the page-fault command does not come back. */
  method ParseAndRun(console: Console.Console, buf: array<char>, ghost line: string, env: Env) returns (r: Outcome<()>)
    requires console.Ready() && CString(buf[..], 0, line) && Bytes(line)
    modifies console, console.vga, buf
    ensures r == Panicked <==> Faults(line)
    ensures console.Ready() && console.View() == Perform(old(console.View()), Output(line, env))
  {
    ghost var k := TokeniseIs(line);
    var found, cmd, args := Tokens(buf, line);
    if !found {
      return Done(());
    }
    ghost var c := Tokenise(line).cmd;
    assert forall i :: 0 <= i < |c| ==> c[i] == line[k + i];
    var command := Select(buf, cmd, c);
    var text := StringAt(buf, cmd, c);
    var arguments: Option<string> := None;
    if args.Some? {
      var rest := StringAt(buf, args.value, Tokenise(line).args.value);
      arguments := Some(rest);
    }
    console.PerformAll(Script(command, text, arguments, env));
    r := if command == PageFault then Panicked else Done(());
  }

  /** What shell_process leaves on the screen. */
  ghost function Processed(s: Screen, line: string, env: Env): Screen
    requires Valid(s)
  {
    Print(Perform(Newline(s), Output(line, env)), PROMPT, PROMPT_COLOUR)
  }

  /** The same on the terminal: the line submitted is finished, then the output, then the prompt. */
  function TermProcessed(t: Term, line: string, env: Env): Term {
    TermPrint(TermPerform(Break(t), Output(line, env)), PROMPT, PROMPT_COLOUR)
  }

  lemma ProcessedOnScreen(s: Screen, t: Term, line: string, env: Env)
    requires OnScreen(s, t)
    ensures OnScreen(Processed(s, line, env), TermProcessed(t, line, env))
  {
    NewlineOnScreen(s, t);
    PerformOnScreen(Newline(s), Break(t), Output(line, env));
    PrintOnScreen(Perform(Newline(s), Output(line, env)), TermPerform(Break(t), Output(line, env)), PROMPT, PROMPT_COLOUR);
  }

  /** After every command the cursor stands at column 7 of a fresh prompt row. */
  lemma ProcessedShows(s: Screen, line: string, env: Env)
    requires Clean(s)
    ensures Shows(Processed(s, line, env), []) && Processed(s, line, env).col == 7
  {
    NewlineClean(s);
    PerformClean(Newline(s), Output(line, env));
    match Tokenise(line)
    case Nothing => PromptShows(Newline(s));
    case Parsed(cmd, args) =>
      ScriptEndsLine(Named(cmd), cmd, args, env);
      PromptShows(Perform(Newline(s), Output(line, env)));
  }

  method ShellProcess(console: Console.Console, buf: array<char>, ghost line: string, env: Env) returns (r: Outcome<()>)
    requires console.Ready() && CString(buf[..], 0, line) && Bytes(line)
    modifies console, console.vga, buf
    ensures r == Panicked <==> Faults(line)
    ensures console.Ready()
    ensures r.Done? ==> console.View() == Processed(old(console.View()), line, env)
  {
    console.NextLine();
    r := ParseAndRun(console, buf, line, env);
    if r.Done? {
      console.PrintText(PROMPT, PROMPT_COLOUR);
    }
  }

  const TITLE := "=====Shell Test====="
  const HINT := "Input \"help\" to see possible commands."

  /** A short line printed at the start of a row ends at the start of the next one. */
  lemma LineAdvances(s: Screen, text: string)
    requires Clean(s) && s.col == 0 && |text| <= COLS && s.row + 1 < ROWS
    ensures var r := Newline(Print(s, text, PROMPT_COLOUR)); Clean(r) && r.row == s.row + 1 && r.col == 0
  {
    PrintClean(s, text, PROMPT_COLOUR);
    PrintRow(s, text, PROMPT_COLOUR);
    NewlineClean(Print(s, text, PROMPT_COLOUR));
  }

  /** shell_init, with the cursor where it is at boot. */
  method ShellInit(console: Console.Console)
    requires console.Ready() && console.row == 0 && console.col == 0
    modifies console, console.vga
    ensures console.Ready() && Shows(console.View(), [])
  {
    console.VgaClear();
    LineAdvances(console.View(), TITLE);
    console.PrintLine(TITLE, PROMPT_COLOUR);
    LineAdvances(console.View(), HINT);
    console.PrintLine(HINT, PROMPT_COLOUR);
    NewlineClean(console.View());
    console.NextLine();
    PromptShows(console.View());
    console.PrintText(PROMPT, PROMPT_COLOUR);
  }
}
