/**
 What commands write on the terminal, told apart from how they print it: the lines, their colours, and the numbers that
 can be read back from them.
 */
module Transcripts {
  import opened Words
  import opened Libc
  import opened ScreenModel
  import opened Commands
  import opened Terminal
  import Shell

  // ----- words

  lemma {:induction false} WordThen(w: string, rest: string)
    requires ' ' !in w && (rest == [] || rest[0] == ' ')
    ensures WordLength(w + rest) == |w|
  {
    if w == [] {
      assert w + rest == rest;
    } else {
      assert (w + rest)[0] == w[0] && (w + rest)[1..] == w[1..] + rest;
      WordThen(w[1..], rest);
    }
  }

  lemma {:induction false} SpacesSkipped(k: nat, rest: string)
    requires rest != [] && rest[0] != ' '
    ensures SkipSpaces(Spaces(k) + rest) == rest
    decreases k
  {
    if k == 0 {
      assert Spaces(0) + rest == rest;
    } else {
      assert (Spaces(k) + rest)[1..] == Spaces(k - 1) + rest;
      SpacesSkipped(k - 1, rest);
    }
  }

  /** A word behind any spaces, alone or with a space and arguments, is the command with those arguments. */
  lemma TokeniseOf(k: nat, w: string, args: string)
    requires w != [] && ' ' !in w
    ensures Tokenise(Spaces(k) + w) == Parsed(w, None)
    ensures Tokenise(Spaces(k) + (w + " " + args)) == Parsed(w, Some(args))
  {
    assert w[0] in w;
    SpacesSkipped(k, w);
    WordThen(w, []);
    assert w + [] == w;
    var rest := w + " " + args;
    SpacesSkipped(k, rest);
    WordThen(w, " " + args);
    assert rest == w + (" " + args) && rest[..|w|] == w && rest[|w| + 1..] == args;
  }

  lemma TokeniseWord(w: string, args: string)
    requires w != [] && ' ' !in w
    ensures Tokenise(w) == Parsed(w, None) && Tokenise(w + " " + args) == Parsed(w, Some(args))
  {
    TokeniseOf(0, w, args);
    assert Spaces(0) + w == w && Spaces(0) + (w + " " + args) == w + " " + args;
  }

  /** The words that are commands, and that every other word is none. */
  predicate IsCommand(w: string) {
    w in {"help", "clear", "mem", "echo", "uptime", "memmap", "pmm", "heaptest", "paging", "pagefault", "threadcount", "rawmem"}
  }

  lemma UnknownIff(w: string)
    ensures Named(w) == Unknown <==> !IsCommand(w)
  {
  }

  /** Which word selects which command. */
  lemma CommandWords(w: string)
    ensures w == "help" <==> Named(w) == Help
    ensures w == "clear" <==> Named(w) == Clear
    ensures w == "mem" <==> Named(w) == Mem
    ensures w == "echo" <==> Named(w) == Echo
    ensures w == "uptime" <==> Named(w) == Uptime
    ensures w == "memmap" <==> Named(w) == Memmap
    ensures w == "pmm" <==> Named(w) == Pmm
    ensures w == "heaptest" <==> Named(w) == HeapTest
    ensures w == "paging" <==> Named(w) == PagingInfo
    ensures w == "pagefault" <==> Named(w) == PageFault
    ensures w == "threadcount" <==> Named(w) == ThreadCount
    ensures w == "rawmem" <==> Named(w) == RawMem
  {
  }

  // ----- numbers

  function AsInt(w: Word): int {
    if w < 0x8000_0000 then w else w - 0x1_0000_0000
  }

  lemma NumberReadsBack(w: Word)
    requires w != 0x8000_0000
    ensures ReadInt(Number(w)) == Done(AsInt(w)) && |Number(w)| <= 11
  {
    RenderReadBackIff(AsInt(w));
    RenderLength(AsInt(w));
  }

  // ----- what the commands write, from any terminal

  lemma {:induction false} PerformJoined(t: Term, a: seq<Action>, b: seq<Action>)
    ensures TermPerform(t, a + b) == TermPerform(TermPerform(t, a), b)
    decreases a
  {
    if a == [] {
      assert a + b == b;
    } else {
      assert (a + b)[0] == a[0] && (a + b)[1..] == a[1..] + b;
      PerformJoined(TermAct(t, a[0]), a[1..], b);
    }
  }

  lemma PerformFirst(t: Term, a: Action, rest: seq<Action>)
    ensures TermPerform(t, [a] + rest) == TermPerform(TermAct(t, a), rest)
    ensures TermPerform(t, [a]) == TermAct(t, a)
  {
    assert ([a] + rest)[1..] == rest && [a][1..] == [];
  }

  lemma OneLine(t: Term, line: string, colour: nat)
    ensures TermLines(t, [line], colour) == Break(TermPrint(t, line, colour))
  {
    assert [line][1..] == [];
  }

  lemma Two(t: Term, a: string, b: string, colour: nat)
    ensures TermPerform(t, [Say(a, colour), SayLine(b, colour)]) == TermLines(t, [a + b], colour)
  {
    PerformFirst(t, Say(a, colour), [SayLine(b, colour)]);
    PerformFirst(TermPrint(t, a, colour), SayLine(b, colour), []);
    assert [Say(a, colour), SayLine(b, colour)] == [Say(a, colour)] + [SayLine(b, colour)];
    PrintJoined(t, a, b, colour);
    OneLine(t, a + b, colour);
  }

  lemma Three(t: Term, a: string, b: string, c: string, colour: nat)
    ensures TermPerform(t, [Say(a, colour), Say(b, colour), SayLine(c, colour)]) == TermLines(t, [a + b + c], colour)
  {
    var u := TermPrint(t, a, colour);
    PerformFirst(t, Say(a, colour), [Say(b, colour), SayLine(c, colour)]);
    assert [Say(a, colour), Say(b, colour), SayLine(c, colour)] == [Say(a, colour)] + [Say(b, colour), SayLine(c, colour)];
    Two(u, b, c, colour);
    OneLine(u, b + c, colour);
    PrintJoined(t, a, b + c, colour);
    assert a + (b + c) == a + b + c;
    OneLine(t, a + b + c, colour);
  }

  lemma LinesJoined(t: Term, line: string, lines: seq<string>, colour: nat)
    ensures TermLines(TermLines(t, [line], colour), lines, colour) == TermLines(t, [line] + lines, colour)
  {
    assert [line][1..] == [] && ([line] + lines)[1..] == lines;
  }

  lemma OutputOf(w: string, c: Command, env: Env)
    requires w != [] && ' ' !in w && Named(w) == c
    ensures Output(w, env) == Script(c, w, None, env)
  {
    TokeniseWord(w, "");
  }

  /** What the commands that print numbers are made of; `a`, `b` and `d` stand for the numbers. */
  lemma MemScript(w: string, env: Env, d: string)
    requires w == "mem" && d == Number(env.used)
    ensures Output(w, env) == [Say("Memory allocated: ", 0x0F), Say(d, 0x0F), SayLine(" bytes.", 0x0F)]
  {
    CommandWords(w);
    OutputOf(w, Mem, env);
  }

  lemma UptimeScript(w: string, env: Env, d: string)
    requires w == "uptime" && d == Number(env.seconds)
    ensures Output(w, env) == [Say(d, 0x0F), SayLine(" seconds.", 0x0F)]
  {
    CommandWords(w);
    OutputOf(w, Uptime, env);
  }

  lemma ThreadsScript(w: string, env: Env, a: string, b: string)
    requires w == "threadcount" && a == Number(env.countA) && b == Number(env.countB)
    ensures Output(w, env) == [Say("Thread A: ", 0x0F), SayLine(a, 0x0F), Say("Thread B: ", 0x0F), SayLine(b, 0x0F)]
  {
    CommandWords(w);
    OutputOf(w, ThreadCount, env);
  }

  lemma EchoScript(w: string, text: string, env: Env)
    requires w == "echo"
    ensures Output(w + " " + text, env) == if text == [] then [NewLine] else [SayLine(text, 0x0F)]
    ensures Output(w, env) == [NewLine]
  {
    CommandWords(w);
    TokeniseWord(w, text);
  }

  /** `echo` writes its arguments, however long, and an empty line when there are none. */
  lemma EchoWrites(t: Term, w: string, text: string, env: Env)
    requires w == "echo"
    ensures TermPerform(t, Output(w + " " + text, env)) == TermLines(t, [text], 0x0F)
    ensures TermPerform(t, Output(w, env)) == TermLines(t, [""], 0x0F)
  {
    EchoScript(w, text, env);
    PerformFirst(t, if text == [] then NewLine else SayLine(text, 0x0F), []);
    PerformFirst(t, NewLine, []);
    OneLine(t, text, 0x0F);
    OneLine(t, "", 0x0F);
  }

  /** `clear` leaves nothing. */
  lemma ClearWrites(t: Term, w: string, env: Env)
    requires w == "clear"
    ensures TermPerform(t, Output(w, env)) == Term([], [])
  {
    CommandWords(w);
    OutputOf(w, Clear, env);
    PerformFirst(t, ClearScreen, []);
  }

  /** `mem` writes the bytes in use. */
  lemma MemWrites(t: Term, w: string, env: Env) returns (d: string)
    requires w == "mem" && env.used != 0x8000_0000
    ensures TermPerform(t, Output(w, env)) == TermLines(t, ["Memory allocated: " + d + " bytes."], 0x0F)
    ensures ReadInt(d) == Done(AsInt(env.used)) && |d| <= 11
  {
    d := Number(env.used);
    NumberReadsBack(env.used);
    MemScript(w, env, d);
    Three(t, "Memory allocated: ", d, " bytes.", 0x0F);
  }

  /** `uptime` writes the seconds. */
  lemma UptimeWrites(t: Term, w: string, env: Env) returns (d: string)
    requires w == "uptime" && env.seconds != 0x8000_0000
    ensures TermPerform(t, Output(w, env)) == TermLines(t, [d + " seconds."], 0x0F)
    ensures ReadInt(d) == Done(AsInt(env.seconds)) && |d| <= 11
  {
    d := Number(env.seconds);
    NumberReadsBack(env.seconds);
    UptimeScript(w, env, d);
    Two(t, d, " seconds.", 0x0F);
  }

  lemma FourActions(t: Term, a: string, b: string, c: string, d: string, colour: nat)
    ensures TermPerform(t, [Say(a, colour), SayLine(b, colour), Say(c, colour), SayLine(d, colour)])
            == TermLines(t, [a + b, c + d], colour)
  {
    var first, second := [Say(a, colour), SayLine(b, colour)], [Say(c, colour), SayLine(d, colour)];
    PerformJoined(t, first, second);
    assert first + second == [Say(a, colour), SayLine(b, colour), Say(c, colour), SayLine(d, colour)];
    Two(t, a, b, colour);
    Two(TermLines(t, [a + b], colour), c, d, colour);
    LinesJoined(t, a + b, [c + d], colour);
    assert [a + b] + [c + d] == [a + b, c + d];
  }

  /** `threadcount` writes the two thread counters. */
  lemma ThreadsWrite(t: Term, w: string, env: Env) returns (a: string, b: string)
    requires w == "threadcount" && env.countA != 0x8000_0000 && env.countB != 0x8000_0000
    ensures TermPerform(t, Output(w, env)) == TermLines(t, ["Thread A: " + a, "Thread B: " + b], 0x0F)
    ensures ReadInt(a) == Done(AsInt(env.countA)) && ReadInt(b) == Done(AsInt(env.countB)) && |a| <= 11 && |b| <= 11
  {
    a, b := Number(env.countA), Number(env.countB);
    NumberReadsBack(env.countA);
    NumberReadsBack(env.countB);
    ThreadsScript(w, env, a, b);
    FourActions(t, "Thread A: ", a, "Thread B: ", b, 0x0F);
  }

  /** `pmm` writes the frames in all, the used and the free ones, and the free ones in megabytes. */
  lemma PmmWrites(t: Term, w: string, env: Env) returns (all: string, used: string, free: string, mb: string)
    requires w == "pmm" && env.freeFrames + env.usedFrames < 0x8000_0000
    ensures TermPerform(t, Output(w, env)) == TermLines(t,
              ["Total frames: " + all, "Used frames: " + used, "Free frames: " + free, "Free memory: " + mb + " MB"], 0x0F)
    ensures ReadInt(all) == Done(env.freeFrames + env.usedFrames)
    ensures ReadInt(used) == Done(env.usedFrames) && ReadInt(free) == Done(env.freeFrames)
    ensures ReadInt(mb) == Done((env.freeFrames * 4) % 0x1_0000_0000 / 1024)
    ensures |all| <= 11 && |used| <= 11 && |free| <= 11 && |mb| <= 11
  {
    all, used, free, mb := PmmNumbers(env);
    PmmScript(w, env, all, used, free, mb);
    PmmActions(t, all, used, free, mb, 0x0F);
  }

  lemma PmmScript(w: string, env: Env, all: string, used: string, free: string, mb: string)
    requires w == "pmm" && all == Number(Wrap(env.freeFrames + env.usedFrames)) && used == Number(env.usedFrames)
    requires free == Number(env.freeFrames) && mb == Number(Wrap(env.freeFrames * 4) / 1024)
    ensures Output(w, env) == [Say("Total frames: ", 0x0F), SayLine(all, 0x0F), Say("Used frames: ", 0x0F), SayLine(used, 0x0F)]
                              + ([Say("Free frames: ", 0x0F), SayLine(free, 0x0F)]
                                 + [Say("Free memory: ", 0x0F), Say(mb, 0x0F), SayLine(" MB", 0x0F)])
  {
    CommandWords(w);
    OutputOf(w, Pmm, env);
    PmmScriptIs(w, env, all, used, free, mb);
  }

  lemma PmmScriptIs(w: string, env: Env, all: string, used: string, free: string, mb: string)
    requires all == Number(Wrap(env.freeFrames + env.usedFrames)) && used == Number(env.usedFrames)
    requires free == Number(env.freeFrames) && mb == Number(Wrap(env.freeFrames * 4) / 1024)
    ensures Script(Pmm, w, None, env)
            == [Say("Total frames: ", 0x0F), SayLine(all, 0x0F), Say("Used frames: ", 0x0F), SayLine(used, 0x0F)]
               + ([Say("Free frames: ", 0x0F), SayLine(free, 0x0F)]
                  + [Say("Free memory: ", 0x0F), Say(mb, 0x0F), SayLine(" MB", 0x0F)])
  {
  }

  lemma PmmNumbers(env: Env) returns (all: string, used: string, free: string, mb: string)
    requires env.freeFrames + env.usedFrames < 0x8000_0000
    ensures all == Number(Wrap(env.freeFrames + env.usedFrames)) && used == Number(env.usedFrames)
    ensures free == Number(env.freeFrames) && mb == Number(Wrap(env.freeFrames * 4) / 1024)
    ensures ReadInt(all) == Done(env.freeFrames + env.usedFrames)
    ensures ReadInt(used) == Done(env.usedFrames) && ReadInt(free) == Done(env.freeFrames)
    ensures ReadInt(mb) == Done((env.freeFrames * 4) % 0x1_0000_0000 / 1024)
    ensures |all| <= 11 && |used| <= 11 && |free| <= 11 && |mb| <= 11
  {
    all, used := Number(Wrap(env.freeFrames + env.usedFrames)), Number(env.usedFrames);
    free, mb := Number(env.freeFrames), Number(Wrap(env.freeFrames * 4) / 1024);
    NumberReadsBack(Wrap(env.freeFrames + env.usedFrames));
    NumberReadsBack(env.usedFrames);
    NumberReadsBack(env.freeFrames);
    NumberReadsBack(Wrap(env.freeFrames * 4) / 1024);
  }

  lemma PmmActions(t: Term, all: string, used: string, free: string, mb: string, colour: nat)
    ensures TermPerform(t, [Say("Total frames: ", colour), SayLine(all, colour), Say("Used frames: ", colour), SayLine(used, colour)]
                           + ([Say("Free frames: ", colour), SayLine(free, colour)]
                              + [Say("Free memory: ", colour), Say(mb, colour), SayLine(" MB", colour)]))
            == TermLines(t, ["Total frames: " + all, "Used frames: " + used, "Free frames: " + free, "Free memory: " + mb + " MB"],
                         colour)
  {
    var first := [Say("Total frames: ", colour), SayLine(all, colour), Say("Used frames: ", colour), SayLine(used, colour)];
    var middle := [Say("Free frames: ", colour), SayLine(free, colour)];
    var last := [Say("Free memory: ", colour), Say(mb, colour), SayLine(" MB", colour)];
    var l1, l2, l3, l4 := "Total frames: " + all, "Used frames: " + used, "Free frames: " + free, "Free memory: " + mb + " MB";
    FourActions(t, "Total frames: ", all, "Used frames: ", used, colour);
    Two(TermLines(t, [l1, l2], colour), "Free frames: ", free, colour);
    Three(TermLines(TermLines(t, [l1, l2], colour), [l3], colour), "Free memory: ", mb, " MB", colour);
    InThree(t, first, middle, last, l1, l2, l3, l4, colour);
  }

  lemma InThree(t: Term, first: seq<Action>, middle: seq<Action>, last: seq<Action>,
                l1: string, l2: string, l3: string, l4: string, colour: nat)
    requires TermPerform(t, first) == TermLines(t, [l1, l2], colour)
    requires var u := TermLines(t, [l1, l2], colour);
             && TermPerform(u, middle) == TermLines(u, [l3], colour)
             && TermPerform(TermLines(u, [l3], colour), last) == TermLines(TermLines(u, [l3], colour), [l4], colour)
    ensures TermPerform(t, first + (middle + last)) == TermLines(t, [l1, l2, l3, l4], colour)
  {
    var u := TermLines(t, [l1, l2], colour);
    PerformJoined(t, first, middle + last);
    PerformJoined(u, middle, last);
    LinesJoined(u, l3, [l4], colour);
    assert [l3] + [l4] == [l3, l4];
    TwoThenTwo(t, l1, l2, l3, l4, colour);
  }

  lemma TwoThenTwo(t: Term, l1: string, l2: string, l3: string, l4: string, colour: nat)
    ensures TermLines(TermLines(t, [l1, l2], colour), [l3, l4], colour) == TermLines(t, [l1, l2, l3, l4], colour)
  {
    assert [l1] + [l2] == [l1, l2] && [l1] + [l2, l3, l4] == [l1, l2, l3, l4] && [l2] + [l3, l4] == [l2, l3, l4];
    LinesJoined(t, l1, [l2], colour);
    LinesJoined(TermLines(t, [l1], colour), l2, [l3, l4], colour);
    LinesJoined(t, l1, [l2, l3, l4], colour);
  }

  lemma UnknownScript(w: string, env: Env)
    requires w != [] && ' ' !in w && !IsCommand(w)
    ensures Output(w, env) == [Say("Uknown command: ", 0x0C), SayLine(w, 0x0C)]
  {
    UnknownIff(w);
    OutputOf(w, Unknown, env);
  }

  /** A word that is no command is repeated in red. */
  lemma UnknownWrites(t: Term, w: string, env: Env)
    requires w != [] && ' ' !in w && !IsCommand(w)
    ensures TermPerform(t, Output(w, env)) == TermLines(t, ["Uknown command: " + w], 0x0C)
  {
    UnknownScript(w, env);
    Two(t, "Uknown command: ", w, 0x0C);
  }

  // ----- on the screen

  /** Row `row` holds `line` in colour `colour`, and blanks after it, in its first 79 columns. */
  ghost predicate RowHolds(r: Screen, row: nat, line: string, colour: nat)
    requires |r.cells| == CELLS && row < 25
  {
    forall i: nat :: i < 79 ==> CellAt(r.cells, row, i) == if i < |line| then Cell(line[i], colour) else Cell(' ', 0x0F)
  }

  /** The `j`-th last of the lines stands on the `j`-th row above the cursor. */
  ghost predicate LineAbove(r: Screen, lines: seq<string>, colour: nat, j: nat) {
    && |r.cells| == CELLS && j < r.row < 25 && j < |lines|
    && RowHolds(r, r.row - 1 - j, lines[|lines| - 1 - j], colour)
  }

  /** The last 24 lines stand in order on the rows above the cursor, which is at the start of a row. */
  ghost predicate LinesAbove(r: Screen, lines: seq<string>, colour: nat) {
    r.col == 0 && forall j: nat :: j < |lines| && j < 24 ==> LineAbove(r, lines, colour, j)
  }

  /** Output that is lines of at most 79 characters, from the start of a row of a clean screen. */
  lemma {:induction false} OutputShows(s: Screen, actions: seq<Action>, lines: seq<string>, colour: nat)
    requires Clean(s) && s.col == 0 && TermPerform(Term([], []), actions) == TermLines(Term([], []), lines, colour)
    requires forall l :: l in lines ==> |l| <= 79
    ensures LinesAbove(Perform(s, actions), lines, colour)
  {
    var r, u := Perform(s, actions), TermLines(Term([], []), lines, colour);
    BlankTerm(s);
    PerformOnScreen(s, Term([], []), actions);
    ShortLines(Term([], []), lines, colour);
    assert r.col == |u.cur| == 0;
    forall j: nat | j < |lines| && j < 24 ensures LineAbove(r, lines, colour, j) {
      LinesStand(r, Term([], []), lines, colour, j, 0);
      var row, line := r.row - 1 - j, lines[|lines| - 1 - j];
      forall i: nat | i < 79
        ensures CellAt(r.cells, row, i) == if i < |line| then Cell(line[i], colour) else Cell(' ', 0x0F)
      {
        LinesStand(r, Term([], []), lines, colour, j, i);
      }
    }
  }

  /** So the argument of `echo` stands on the row above the cursor, in white on black. */
  lemma {:induction false} EchoShows(s: Screen, w: string, text: string, env: Env, actions: seq<Action>)
    requires w == "echo" && actions == Output(w + " " + text, env)
    requires Clean(s) && s.col == 0 && |text| <= 79
    ensures LinesAbove(Perform(s, actions), [text], 0x0F)
  {
    EchoWrites(Term([], []), w, text, env);
    OutputShows(s, actions, [text], 0x0F);
  }

  /** And the bytes in use can be read back from that row after `mem`; the other figures likewise. */
  lemma {:induction false} MemShows(s: Screen, w: string, env: Env, actions: seq<Action>) returns (d: string)
    requires w == "mem" && actions == Output(w, env)
    requires Clean(s) && s.col == 0 && env.used != 0x8000_0000
    ensures ReadInt(d) == Done(AsInt(env.used)) && LinesAbove(Perform(s, actions), ["Memory allocated: " + d + " bytes."], 0x0F)
  {
    d := MemWrites(Term([], []), w, env);
    OutputShows(s, actions, ["Memory allocated: " + d + " bytes."], 0x0F);
  }

  lemma {:induction false} UptimeShows(s: Screen, w: string, env: Env, actions: seq<Action>) returns (d: string)
    requires w == "uptime" && actions == Output(w, env)
    requires Clean(s) && s.col == 0 && env.seconds != 0x8000_0000
    ensures ReadInt(d) == Done(AsInt(env.seconds)) && LinesAbove(Perform(s, actions), [d + " seconds."], 0x0F)
  {
    d := UptimeWrites(Term([], []), w, env);
    OutputShows(s, actions, [d + " seconds."], 0x0F);
  }

  lemma {:induction false} ThreadsShow(s: Screen, w: string, env: Env, actions: seq<Action>) returns (a: string, b: string)
    requires w == "threadcount" && actions == Output(w, env)
    requires Clean(s) && s.col == 0 && env.countA != 0x8000_0000 && env.countB != 0x8000_0000
    ensures ReadInt(a) == Done(AsInt(env.countA)) && ReadInt(b) == Done(AsInt(env.countB))
    ensures LinesAbove(Perform(s, actions), ["Thread A: " + a, "Thread B: " + b], 0x0F)
  {
    a, b := ThreadsWrite(Term([], []), w, env);
    OutputShows(s, actions, ["Thread A: " + a, "Thread B: " + b], 0x0F);
  }

  lemma {:induction false} PmmShows(s: Screen, w: string, env: Env, actions: seq<Action>)
    returns (all: string, used: string, free: string, mb: string)
    requires w == "pmm" && actions == Output(w, env)
    requires Clean(s) && s.col == 0 && env.freeFrames + env.usedFrames < 0x8000_0000
    ensures ReadInt(all) == Done(env.freeFrames + env.usedFrames)
    ensures ReadInt(used) == Done(env.usedFrames) && ReadInt(free) == Done(env.freeFrames)
    ensures ReadInt(mb) == Done((env.freeFrames * 4) % 0x1_0000_0000 / 1024)
    ensures LinesAbove(Perform(s, actions),
                       ["Total frames: " + all, "Used frames: " + used, "Free frames: " + free, "Free memory: " + mb + " MB"], 0x0F)
  {
    all, used, free, mb := PmmWrites(Term([], []), w, env);
    OutputShows(s, actions, ["Total frames: " + all, "Used frames: " + used, "Free frames: " + free, "Free memory: " + mb + " MB"], 0x0F);
  }

  /** A word that is no command, in red. */
  lemma {:induction false} UnknownShows(s: Screen, w: string, env: Env, actions: seq<Action>)
    requires w != [] && ' ' !in w && !IsCommand(w) && actions == Output(w, env)
    requires Clean(s) && s.col == 0 && |w| <= 63
    ensures LinesAbove(Perform(s, actions), ["Uknown command: " + w], 0x0C)
  {
    UnknownWrites(Term([], []), w, env);
    OutputShows(s, actions, ["Uknown command: " + w], 0x0C);
  }

  /** The prompt stands on the row of the cursor. */
  ghost predicate AtPrompt(r: Screen) {
    |r.cells| == CELLS && r.row < 25 && r.col == 7 && RowHolds(r, r.row, "INPUT> ", 0x0A)
  }

  lemma PromptOnTerm(t: Term)
    requires t.cur == []
    ensures TermPrint(t, "INPUT> ", 0x0A) == Term(t.done, Styled("INPUT> ", 0x0A))
  {
    PrintShort(t, "INPUT> ", 0x0A);
    assert [] + Styled("INPUT> ", 0x0A) == Styled("INPUT> ", 0x0A);
  }

  lemma ShownAtPrompt(r: Screen, done: seq<seq<Cell>>, prompt: string, colour: nat)
    requires OnScreen(r, Term(done, Styled(prompt, colour)))
    ensures |r.cells| == CELLS && r.row < 25 && r.col == |prompt| && RowHolds(r, r.row, prompt, colour)
  {
    CurrentRow(r, Term(done, Styled(prompt, colour)));
  }

  /** The screen after a command whose output, on an empty terminal, is `u`. */
  lemma ProcessedTerm(s: Screen, line: string, env: Env, u: Term)
    requires Clean(s) && u.cur == [] && TermPerform(Term([], []), Output(line, env)) == u
    ensures OnScreen(Shell.Processed(s, line, env), Term(u.done, Styled("INPUT> ", 0x0A)))
  {
    NewlineClean(s);
    BlankTerm(Newline(s));
    PerformOnScreen(Newline(s), Term([], []), Output(line, env));
    PrintOnScreen(Perform(Newline(s), Output(line, env)), u, "INPUT> ", 0x0A);
    PromptOnTerm(u);
  }

  /** The `j`-th last finished line stands there while another is being written. */
  lemma LineStands(r: Screen, t: Term, lines: seq<string>, colour: nat, j: nat)
    requires OnScreen(r, t) && t.done == TermLines(Term([], []), lines, colour).done
    requires j < |lines| && j < 24 && forall l :: l in lines ==> |l| <= 79
    ensures LineAbove(r, lines, colour, j)
  {
    ShortLines(Term([], []), lines, colour);
    assert Stands(r, t, j);
  }

  /** Wherever a line is submitted: its output stands above the new prompt, the last 24 lines of it in order. */
  lemma {:induction false} CommandShows(s: Screen, line: string, env: Env, lines: seq<string>, colour: nat)
    requires Clean(s) && TermPerform(Term([], []), Output(line, env)) == TermLines(Term([], []), lines, colour)
    requires forall l :: l in lines ==> |l| <= 79
    ensures var r := Shell.Processed(s, line, env);
            AtPrompt(r) && forall j: nat :: j < |lines| && j < 24 ==> LineAbove(r, lines, colour, j)
  {
    var r, u := Shell.Processed(s, line, env), TermLines(Term([], []), lines, colour);
    ShortLines(Term([], []), lines, colour);
    ProcessedTerm(s, line, env, u);
    ShownAtPrompt(r, u.done, "INPUT> ", 0x0A);
    forall j: nat | j < |lines| && j < 24 ensures LineAbove(r, lines, colour, j) {
      LineStands(r, Term(u.done, Styled("INPUT> ", 0x0A)), lines, colour, j);
    }
  }
}
