/**
 How the shell splits a line, which command it runs, and what that command prints (shell/shell.c).
 */
module Commands {
  import opened Words
  import opened Libc
  import opened ScreenModel

  // ----- tokens

  datatype Parsed = Nothing | Parsed(cmd: string, args: Option<string>)

  function SkipSpaces(s: string): string {
    if s != [] && s[0] == ' ' then SkipSpaces(s[1..]) else s
  }

  /** Length of the first word. */
  function WordLength(s: string): (n: nat)
    ensures n <= |s|
  {
    if s == [] || s[0] == ' ' then 0 else 1 + WordLength(s[1..])
  }

  function Tokenise(line: string): Parsed {
    var rest := SkipSpaces(line);
    if rest == [] then Nothing else
      var n := WordLength(rest);
      Parsed(rest[..n], if n == |rest| then None else Some(rest[n + 1..]))
  }

  function Spaces(k: nat): string {
    seq(k, _ => ' ')
  }

  lemma {:induction false} SkipSpacesIs(s: string) returns (k: nat)
    ensures s == Spaces(k) + SkipSpaces(s) && k <= |s|
    ensures SkipSpaces(s) != [] ==> SkipSpaces(s)[0] != ' '
  {
    if s != [] && s[0] == ' ' {
      k := SkipSpacesIs(s[1..]);
      k := k + 1;
      assert s == [' '] + s[1..];
    } else {
      k := 0;
    }
  }

  lemma {:induction false} WordLengthIs(s: string)
    ensures ' ' !in s[..WordLength(s)]
    ensures WordLength(s) < |s| ==> s[WordLength(s)] == ' '
  {
    if s != [] && s[0] != ' ' {
      WordLengthIs(s[1..]);
      assert s[..WordLength(s)] == [s[0]] + s[1..][..WordLength(s[1..])];
    }
  }

  /** A line is nothing but spaces, or leading spaces, a word, and perhaps a space and the arguments. */
  lemma TokeniseIs(line: string) returns (k: nat)
    ensures match Tokenise(line)
            case Nothing => line == Spaces(k)
            case Parsed(cmd, args) =>
              && cmd != [] && ' ' !in cmd
              && line == Spaces(k) + cmd + (if args.Some? then " " + args.value else "")
  {
    k := SkipSpacesIs(line);
    var rest := SkipSpaces(line);
    if rest != [] {
      WordLengthIs(rest);
      Rejoin(rest, WordLength(rest));
      assert line == Spaces(k) + rest;
      SpacesThen(Spaces(k), rest, WordLength(rest));
    } else {
      assert line == Spaces(k);
    }
  }

  lemma Rejoin(s: string, n: nat)
    requires n <= |s| && (n < |s| ==> s[n] == ' ')
    ensures s == s[..n] + (if n == |s| then "" else " " + s[n + 1..])
  {
  }

  lemma SpacesThen(before: string, s: string, n: nat)
    requires n <= |s| && (n < |s| ==> s[n] == ' ')
    ensures before + s == before + s[..n] + (if n == |s| then "" else " " + s[n + 1..])
  {
    Rejoin(s, n);
  }

  // ----- commands

  datatype Command =
    | Help | Clear | Mem | Echo | Uptime | Memmap | Pmm | HeapTest | PagingInfo | PageFault | ThreadCount | RawMem | Unknown

  function Named(cmd: string): Command {
    if cmd == "help" then Help else if cmd == "clear" then Clear else if cmd == "mem" then Mem
    else if cmd == "echo" then Echo else NamedStatus(cmd)
  }

  function NamedStatus(cmd: string): Command {
    if cmd == "uptime" then Uptime else if cmd == "memmap" then Memmap else if cmd == "pmm" then Pmm
    else if cmd == "heaptest" then HeapTest else NamedTest(cmd)
  }

  function NamedTest(cmd: string): Command {
    if cmd == "paging" then PagingInfo else if cmd == "pagefault" then PageFault
    else if cmd == "threadcount" then ThreadCount else if cmd == "rawmem" then RawMem else Unknown
  }

  /** What the commands read from the rest of the kernel. */
  datatype Env = Env(
    used: Word, seconds: Word, countA: Word, countB: Word,
    freeFrames: Word, usedFrames: Word,
    regions: seq<RegionInfo>, usableMb: Word,
    heapAddresses: (Word, Word, Word, Word), heapUsed: (Word, Word, Word),
    cr0: Word, cr3: Word, low: Word, high: Word,
    rawBytes: seq<Word>)

  datatype RegionInfo = RegionInfo(base: Word, length: Word, kind: string)

  function Number(w: Word): string {
    Render(if w <= INT_MAX then w else w - WORD_LIMIT)
  }

  function Hex(w: Word): string {
    "0x" + HexDigits(w, 8)
  }

  function Text(s: string): Action {
    Say(s, OUTPUT_COLOUR)
  }

  function Line(s: string): Action {
    SayLine(s, OUTPUT_COLOUR)
  }

  function RegionLines(rs: seq<RegionInfo>): seq<Action> {
    if rs == [] then [] else
      [Text(" base: "), Text(Hex(rs[0].base)), Text(" length: "), Text(Number(rs[0].length)), Text(" type: "),
       SayLine(rs[0].kind, PROMPT_COLOUR)] + RegionLines(rs[1..])
  }

  /** Eight numbers to a row. */
  function RawLines(bytes: seq<Word>, i: nat): seq<Action> {
    if bytes == [] then [] else
      [Text(Number(bytes[0])), Text(" ")] + (if (i + 1) % 8 == 0 then [NewLine] else []) + RawLines(bytes[1..], i + 1)
  }

  function Script(c: Command, cmd: string, args: Option<string>, env: Env): seq<Action> {
    match c
    case Help =>
      [Line("Available commands:"), Line("help: this current message"), Line("clear: clear screen"),
       Line("mem: show memory usage"), Line("echo <text>: print text to screen"),
       Line("uptime: show seconds since startup"), Line("memmap: show memory regions"),
       Line("pmm: show physical memory usage")]
    case Clear => [ClearScreen]
    case Mem => [Text("Memory allocated: "), Text(Number(env.used)), Line(" bytes.")]
    case Echo => if args.None? || args.value == [] then [NewLine] else [Line(args.value)]
    case Uptime => [Text(Number(env.seconds)), Line(" seconds.")]
    case Memmap =>
      [Text("Memory regions: "), Line(Number(|env.regions| % WORD_LIMIT))] + RegionLines(env.regions)
      + [Text("Total usable: "), Text(Number(env.usableMb)), Line(" MB")]
    case Pmm =>
      [Text("Total frames: "), Line(Number(Wrap(env.freeFrames + env.usedFrames))),
       Text("Used frames: "), Line(Number(env.usedFrames))]
      + ([Text("Free frames: "), Line(Number(env.freeFrames))]
         + [Text("Free memory: "), Text(Number(Wrap(env.freeFrames * 4) / 1024)), Line(" MB")])
    case HeapTest =>
      [Text("Allocating 100 bytes... "), Line(Hex(env.heapAddresses.0)),
       Text("Allocating 200 bytes... "), Line(Hex(env.heapAddresses.1)),
       Text("Allocating 50 bytes...  "), Line(Hex(env.heapAddresses.2)),
       Text("Heap used: "), Text(Number(env.heapUsed.0)), Line(" bytes"),
       Text("Freeing middle block..."), Line(" done"),
       Text("Heap used: "), Text(Number(env.heapUsed.1)), Line(" bytes"),
       Text("Allocating 150 bytes... "), Line(Hex(env.heapAddresses.3)),
       Text("(reused freed slot if same as b)"), Line(""), Line("All freed"),
       Text("Heap used: "), Text(Number(env.heapUsed.2)), Line(" bytes (should be 0)")]
    case PagingInfo =>
      [Text("CR0: "), Line(Hex(env.cr0)),
       if env.cr0 >= 0x8000_0000 then SayLine("Paging enabled.", PROMPT_COLOUR) else SayLine("Paging disabled.", ERROR_COLOUR),
       Text("CR3: "), Line(Hex(env.cr3)),
       Text("VGA at 0x000B8000: "), Line(Hex(env.low)), Text("VGA at 0xC00B8000: "), Line(Hex(env.high)),
       if env.low == env.high then SayLine("Higher half mapping worked.", PROMPT_COLOUR)
       else SayLine("Higher half mapping failed.", ERROR_COLOUR)]
    case PageFault => [SayLine("Triggering page fault", ERROR_COLOUR)]
    case ThreadCount => [Text("Thread A: "), Line(Number(env.countA)), Text("Thread B: "), Line(Number(env.countB))]
    case RawMem => RawLines(env.rawBytes, 0) + [NewLine]
    case Unknown => [Say("Uknown command: ", ERROR_COLOUR), SayLine(cmd, ERROR_COLOUR)]
  }

  /** Every command leaves the cursor at the start of a line. */
  lemma ScriptEndsLine(c: Command, cmd: string, args: Option<string>, env: Env)
    ensures EndsLine(Script(c, cmd, args, env))
  {
    if c == Memmap {
      EndsLineAfter([Text("Memory regions: "), Line(Number(|env.regions| % WORD_LIMIT))] + RegionLines(env.regions),
                    [Text("Total usable: "), Text(Number(env.usableMb)), Line(" MB")]);
    } else if c == RawMem {
      EndsLineAfter(RawLines(env.rawBytes, 0), [NewLine]);
    } else if c == Pmm {
      var last := [Text("Free memory: "), Text(Number(Wrap(env.freeFrames * 4) / 1024)), Line(" MB")];
      EndsLineAfter([Text("Free frames: "), Line(Number(env.freeFrames))], last);
      EndsLineAfter([Text("Total frames: "), Line(Number(Wrap(env.freeFrames + env.usedFrames))),
                     Text("Used frames: "), Line(Number(env.usedFrames))],
                    [Text("Free frames: "), Line(Number(env.freeFrames))] + last);
    } else if c == HeapTest {
      HeapTestEndsLine(cmd, args, env);
    } else {
      ShortScriptEndsLine(c, cmd, args, env);
    }
  }

  lemma HeapTestEndsLine(cmd: string, args: Option<string>, env: Env)
    ensures EndsLine(Script(HeapTest, cmd, args, env))
  {
  }

  lemma ShortScriptEndsLine(c: Command, cmd: string, args: Option<string>, env: Env)
    requires c !in {Memmap, RawMem, HeapTest, Pmm}
    ensures EndsLine(Script(c, cmd, args, env))
  {
  }

  lemma EndsLineAfter(first: seq<Action>, last: seq<Action>)
    requires EndsLine(last)
    ensures EndsLine(first + last)
  {
  }

  function Output(line: string, env: Env): seq<Action> {
    match Tokenise(line)
    case Nothing => []
    case Parsed(cmd, args) => Script(Named(cmd), cmd, args, env)
  }

  predicate Faults(line: string) {
    match Tokenise(line)
    case Nothing => false
    case Parsed(cmd, _) => Named(cmd) == PageFault
  }
}
