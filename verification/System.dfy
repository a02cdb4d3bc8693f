/**
 The whole system after boot: the timer interrupt, main's idle loop and the two threads of kernel/kernel.c, running on
 the scheduler.  Threads run with interrupts off, because the interrupt gate that led to them cleared the flag and
 nothing sets it again; so the timer can only interrupt main outside its handler.
 */
module System {
  import opened Words
  import opened Arithmetic
  import opened TaskModel

  /** Where the code is: entries of the threads, and the return addresses of the calls that matter. */
  datatype Code = Code(
    entryA: Word, entryB: Word,     // thread_a, thread_b
    loopA: Word, loopB: Word,       // after the call of task_yield in each
    handler: Word,                  // after the call of task_yield in timer_handler
    idle: Word,                     // main's hlt loop
    yieldRet: Word)                 // after the call of context_switch in task_yield

  ghost predicate Distinct(c: Code) {
    && c.yieldRet !in {c.handler, c.idle, c.entryA, c.loopA, c.entryB, c.loopB}
    && c.handler !in {c.idle, c.entryA, c.loopA, c.entryB, c.loopB}
    && c.idle !in {c.entryA, c.loopA, c.entryB, c.loopB}
    && c.entryA !in {c.entryB, c.loopB} && c.loopA !in {c.entryB, c.loopB}
  }

  datatype Sys = Sys(s: State, countA: Word, countB: Word, ticks: Word, seconds: Word)

  datatype SysEvent = Timer | Cpu

  // ----- one step

  /** A call of task_yield that returns to `ret`: push the return address, then switch. */
  function CallYield(c: Code, s: State, pushed: seq<Word>): State
    requires WellFormed(s) && Enabled(Step(s, Worked(s.regs, pushed + s.stack)), Yielded(c.yieldRet))
  {
    Step(Step(s, Worked(s.regs, pushed + s.stack)), Yielded(c.yieldRet))
  }

  ghost predicate CanCall(c: Code, s: State, pushed: seq<Word>) {
    && WellFormed(s) && |s.ring| > 1 && Enabled(Step(s, Worked(s.regs, pushed + s.stack)), Yielded(c.yieldRet))
    && |pushed| + |s.stack| + 7 <= s.ring[0].hi - s.ring[0].lo
  }

  /** What the processor pops to return: `n` words of arguments are dropped first. */
  function Return(s: State, n: nat): State
    requires WellFormed(s) && n < |s.stack|
  {
    Step(s, Worked(s.regs.(eip := s.stack[n]), s.stack[n + 1..]))
  }

  /** The interrupt pushes main's resumption point, timer_handler counts, and calls task_yield. */
  function TimerStep(c: Code, hz: nat, y: Sys): Sys
    requires hz > 0 && WellFormed(y.s)
    requires Enabled(Step(y.s, Worked(y.s.regs, [c.handler, c.idle] + y.s.stack)), Yielded(c.yieldRet))
  {
    var ticks := Wrap(y.ticks + 1);
    Sys(CallYield(c, y.s, [c.handler, c.idle]), y.countA, y.countB, ticks,
        if ticks % hz == 0 then Wrap(y.seconds + 1) else y.seconds)
  }

  ghost predicate CpuEnabled(c: Code, y: Sys) {
    var eip := y.s.regs.eip;
    && WellFormed(y.s)
    && (eip == c.yieldRet ==> |y.s.stack| > 2)
    && (eip == c.handler ==> |y.s.stack| > 0)
    && (eip == c.entryA || eip == c.loopA ==> CanCall(c, y.s, [c.loopA]))
    && (eip == c.entryB || eip == c.loopB ==> CanCall(c, y.s, [c.loopB]))
  }

  /** What the running code does up to its next call or return. */
  function CpuStep(c: Code, y: Sys): Sys
    requires CpuEnabled(c, y)
  {
    var eip := y.s.regs.eip;
    if eip == c.yieldRet then y.(s := Return(y.s, 2))            // task_yield returns to its caller
    else if eip == c.handler then y.(s := Return(y.s, 0))        // the interrupt returns
    else if eip == c.entryA || eip == c.loopA then
      y.(s := CallYield(c, y.s, [c.loopA]), countA := Wrap(y.countA + 1))
    else if eip == c.entryB || eip == c.loopB then
      y.(s := CallYield(c, y.s, [c.loopB]), countB := Wrap(y.countB + 2))
    else y                                                       // hlt
  }

  // ----- where each task stands

  const PARKED := 8     // words of a thread's image once it has called task_yield

  ghost predicate Fresh(t: Task, entry: Word) {
    t.image == InitialImage(entry)
  }

  ghost predicate Parked(c: Code, t: Task, loop: Word) {
    |t.image| == PARKED && t.image[4] == c.yieldRet && t.image[7] == loop
  }

  ghost predicate ThreadOk(c: Code, t: Task, entry: Word, loop: Word) {
    Fresh(t, entry) || Parked(c, t, loop)
  }

  ghost predicate MainParked(c: Code, t: Task, base: seq<Word>) {
    |t.image| == 9 + |base| && t.image[4] == c.yieldRet && t.image[7..] == [c.handler, c.idle] + base
  }

  /** Stack sizes: a thread never needs more than its image, main nine words beyond its own. */
  ghost predicate Roomy(t: Task, words: nat) {
    t.lo + words <= t.hi && 4 * t.hi < WORD_LIMIT && 4 * t.node < WORD_LIMIT
  }

  ghost predicate AllRoomy(main: Task, b: Task, a: Task, base: seq<Word>) {
    Roomy(main, 9 + |base|) && Roomy(b, PARKED) && Roomy(a, PARKED)
  }

  /** Main runs outside its handler. */
  ghost predicate Idle(c: Code, s: State, base: seq<Word>) {
    && |s.ring| == 3 && AllRoomy(s.ring[0], s.ring[1], s.ring[2], base)
    && s.regs.eip == c.idle && s.stack == base
    && ThreadOk(c, s.ring[1], c.entryB, c.loopB) && ThreadOk(c, s.ring[2], c.entryA, c.loopA)
  }

  /** A thread runs that has just been switched to, or has just returned from task_yield. */
  ghost predicate Running(c: Code, s: State, entry: Word, loop: Word) {
    || (s.regs.eip == c.yieldRet && |s.stack| == 3 && s.stack[2] == loop)
    || ((s.regs.eip == entry || s.regs.eip == loop) && s.stack == [])
  }

  ghost predicate InB(c: Code, s: State, base: seq<Word>) {
    && |s.ring| == 3 && AllRoomy(s.ring[2], s.ring[0], s.ring[1], base)
    && Running(c, s, c.entryB, c.loopB)
    && ThreadOk(c, s.ring[1], c.entryA, c.loopA) && MainParked(c, s.ring[2], base)
  }

  ghost predicate InA(c: Code, s: State, base: seq<Word>) {
    && |s.ring| == 3 && AllRoomy(s.ring[1], s.ring[2], s.ring[0], base)
    && Running(c, s, c.entryA, c.loopA)
    && MainParked(c, s.ring[1], base) && Parked(c, s.ring[2], c.loopB)
  }

  ghost predicate InHandler(c: Code, s: State, base: seq<Word>) {
    && |s.ring| == 3 && AllRoomy(s.ring[0], s.ring[1], s.ring[2], base)
    && Parked(c, s.ring[1], c.loopB) && Parked(c, s.ring[2], c.loopA)
    && (|| (s.regs.eip == c.yieldRet && |s.stack| == 4 + |base| && s.stack[2..] == [c.handler, c.idle] + base)
        || (s.regs.eip == c.handler && s.stack == [c.idle] + base))
  }

  // ----- the invariant

  /** Seconds counted by the first `n` ticks. */
  function SecondsAfter(n: nat, hz: nat): nat
    requires hz > 0
  {
    if n == 0 then 0 else SecondsAfter(n - 1, hz) + (if Wrap(n) % hz == 0 then 1 else 0)
  }

  /** `n` is the number of timer interrupts so far, `base` what main keeps on its stack. */
  ghost predicate Inv(c: Code, hz: nat, base: seq<Word>, y: Sys, n: nat)
    requires hz > 0
  {
    && Distinct(c) && y.ticks == Wrap(n) && y.seconds == Wrap(SecondsAfter(n, hz))
    && (|| (Idle(c, y.s, base) && y.countA == Wrap(n) && y.countB == Wrap(2 * n))
        || (InB(c, y.s, base) && n > 0 && y.countA == Wrap(n - 1) && y.countB == Wrap(2 * (n - 1)))
        || (InA(c, y.s, base) && n > 0 && y.countA == Wrap(n - 1) && y.countB == Wrap(2 * n))
        || (InHandler(c, y.s, base) && y.countA == Wrap(n) && y.countB == Wrap(2 * n)))
  }

  lemma WrapAdd(x: int, y: int)
    ensures Wrap(Wrap(x) + y) == Wrap(x + y)
  {
  }

  /** A switch to a thread: it is at its entry, or about to return from task_yield to its loop. */
  lemma ThreadResumes(c: Code, s: State, entry: Word, loop: Word)
    requires WellFormed(s) && |s.ring| > 1 && Enabled(s, Yielded(c.yieldRet)) && ThreadOk(c, s.ring[1], entry, loop)
    ensures Running(c, Step(s, Yielded(c.yieldRet)), entry, loop)
  {
    var image := s.ring[1].image;
    assert Fresh(s.ring[1], entry) ==> image[SAVED..] == [];
  }

  lemma RingTurns(s: State, ret: Word)
    requires WellFormed(s) && |s.ring| == 3 && Enabled(s, Yielded(ret))
    ensures var r := Step(s, Yielded(ret)).ring;
            && |r| == 3 && r[0] == s.ring[1] && r[1] == s.ring[2]
            && r[2] == s.ring[0].(image := Saved(s.regs, ret, 4 * s.ring[0].node, StackPointer(s.ring[1]), s.stack))
  {
  }

  lemma StepFromIdle(c: Code, hz: nat, base: seq<Word>, y: Sys, n: nat)
    requires hz > 0 && Inv(c, hz, base, y, n) && Idle(c, y.s, base)
    ensures CanCall(c, y.s, [c.handler, c.idle])
    ensures Inv(c, hz, base, TimerStep(c, hz, y), n + 1) && InB(c, TimerStep(c, hz, y).s, base)
  {
    var pushed := Step(y.s, Worked(y.s.regs, [c.handler, c.idle] + y.s.stack));
    RingTurns(pushed, c.yieldRet);
    ThreadResumes(c, pushed, c.entryB, c.loopB);
    WrapAdd(n, 1);
    WrapAdd(SecondsAfter(n, hz), 1);
    assert MainParked(c, Step(pushed, Yielded(c.yieldRet)).ring[2], base);
  }

  lemma StepInB(c: Code, hz: nat, base: seq<Word>, y: Sys, n: nat)
    requires hz > 0 && Inv(c, hz, base, y, n) && InB(c, y.s, base) && n > 0
    requires y.countA == Wrap(n - 1) && y.countB == Wrap(2 * (n - 1))
    ensures CpuEnabled(c, y) && Inv(c, hz, base, CpuStep(c, y), n)
    ensures y.s.regs.eip == c.yieldRet ==> InB(c, CpuStep(c, y).s, base) && CpuStep(c, y).s.regs.eip == c.loopB
    ensures y.s.regs.eip != c.yieldRet ==> InA(c, CpuStep(c, y).s, base)
  {
    if y.s.regs.eip == c.yieldRet {
      assert y.s.stack[3..] == [];
    } else {
      var pushed := Step(y.s, Worked(y.s.regs, [c.loopB] + y.s.stack));
      RingTurns(pushed, c.yieldRet);
      ThreadResumes(c, pushed, c.entryA, c.loopA);
      WrapAdd(2 * (n - 1), 2);
    }
  }

  lemma StepInA(c: Code, hz: nat, base: seq<Word>, y: Sys, n: nat)
    requires hz > 0 && Inv(c, hz, base, y, n) && InA(c, y.s, base) && n > 0
    requires y.countA == Wrap(n - 1) && y.countB == Wrap(2 * n)
    ensures CpuEnabled(c, y) && Inv(c, hz, base, CpuStep(c, y), n)
    ensures y.s.regs.eip == c.yieldRet ==> InA(c, CpuStep(c, y).s, base) && CpuStep(c, y).s.regs.eip == c.loopA
    ensures y.s.regs.eip != c.yieldRet ==> InHandler(c, CpuStep(c, y).s, base)
  {
    if y.s.regs.eip == c.yieldRet {
      assert y.s.stack[3..] == [];
    } else {
      var pushed := Step(y.s, Worked(y.s.regs, [c.loopA] + y.s.stack));
      RingTurns(pushed, c.yieldRet);
      assert pushed.ring[1].image[SAVED..][2..] == pushed.ring[1].image[7..];
      WrapAdd(n - 1, 1);
    }
  }

  lemma StepInHandler(c: Code, hz: nat, base: seq<Word>, y: Sys, n: nat)
    requires hz > 0 && Inv(c, hz, base, y, n) && InHandler(c, y.s, base)
    requires y.countA == Wrap(n) && y.countB == Wrap(2 * n)
    ensures CpuEnabled(c, y) && Inv(c, hz, base, CpuStep(c, y), n)
    ensures y.s.regs.eip == c.yieldRet ==> InHandler(c, CpuStep(c, y).s, base) && CpuStep(c, y).s.regs.eip == c.handler
    ensures y.s.regs.eip == c.handler ==> Idle(c, CpuStep(c, y).s, base)
  {
    if y.s.regs.eip == c.yieldRet {
      assert y.s.stack[2] == y.s.stack[2..][0];
      assert y.s.stack[3..] == y.s.stack[2..][1..];
    }
  }

  // ----- runs

  /** How many processor steps are left before main is back in its loop. */
  ghost function Rank(c: Code, y: Sys): nat {
    var eip := y.s.regs.eip;
    if eip == c.handler then 1
    else if eip == c.entryA || eip == c.loopA then 3
    else if eip == c.entryB || eip == c.loopB then 5
    else if eip == c.yieldRet && |y.s.stack| > 2 then
      (if y.s.stack[2] == c.loopA then 4 else if y.s.stack[2] == c.loopB then 6 else 2)
    else 0
  }

  /** Every processor step keeps the invariant, and is one step closer to main's loop unless main is there. */
  lemma CpuKeeps(c: Code, hz: nat, base: seq<Word>, y: Sys, n: nat)
    requires hz > 0 && Inv(c, hz, base, y, n)
    ensures CpuEnabled(c, y) && Inv(c, hz, base, CpuStep(c, y), n)
    ensures if y.s.regs.eip == c.idle then CpuStep(c, y) == y else Rank(c, CpuStep(c, y)) < Rank(c, y)
  {
    if Idle(c, y.s, base) {
    } else if InB(c, y.s, base) && y.countB == Wrap(2 * (n - 1)) && n > 0 && y.countA == Wrap(n - 1) {
      StepInB(c, hz, base, y, n);
    } else if InA(c, y.s, base) && n > 0 && y.countA == Wrap(n - 1) {
      StepInA(c, hz, base, y, n);
    } else {
      StepInHandler(c, hz, base, y, n);
    }
  }

  lemma IdleAtEip(c: Code, hz: nat, base: seq<Word>, y: Sys, n: nat)
    requires hz > 0 && Inv(c, hz, base, y, n)
    ensures y.s.regs.eip == c.idle <==> Rank(c, y) == 0
    ensures y.s.regs.eip == c.idle ==> Idle(c, y.s, base) && y.countA == Wrap(n) && y.countB == Wrap(2 * n)
  {
  }

  /** The timer interrupts only main outside its handler; the processor can always go on. */
  ghost predicate Possible(c: Code, y: Sys, e: SysEvent) {
    if e.Timer? then y.s.regs.eip == c.idle && CanCall(c, y.s, [c.handler, c.idle]) else CpuEnabled(c, y)
  }

  ghost function Next(c: Code, hz: nat, y: Sys, e: SysEvent): Sys
    requires hz > 0 && Possible(c, y, e)
  {
    if e.Timer? then TimerStep(c, hz, y) else CpuStep(c, y)
  }

  ghost predicate PossibleRun(c: Code, hz: nat, y: Sys, es: seq<SysEvent>)
    requires hz > 0
    decreases es
  {
    es == [] || (Possible(c, y, es[0]) && PossibleRun(c, hz, Next(c, hz, y, es[0]), es[1..]))
  }

  ghost function RunSys(c: Code, hz: nat, y: Sys, es: seq<SysEvent>): Sys
    requires hz > 0 && PossibleRun(c, hz, y, es)
    decreases es
  {
    if es == [] then y else RunSys(c, hz, Next(c, hz, y, es[0]), es[1..])
  }

  function Timers(es: seq<SysEvent>): nat {
    if es == [] then 0 else (if es[0].Timer? then 1 else 0) + Timers(es[1..])
  }

  lemma {:induction false} RunKeeps(c: Code, hz: nat, base: seq<Word>, y: Sys, n: nat, es: seq<SysEvent>)
    requires hz > 0 && Inv(c, hz, base, y, n) && PossibleRun(c, hz, y, es)
    ensures Inv(c, hz, base, RunSys(c, hz, y, es), n + Timers(es))
    decreases es
  {
    if es != [] {
      if es[0].Timer? {
        IdleAtEip(c, hz, base, y, n);
        StepFromIdle(c, hz, base, y, n);
        RunKeeps(c, hz, base, TimerStep(c, hz, y), n + 1, es[1..]);
      } else {
        CpuKeeps(c, hz, base, y, n);
        RunKeeps(c, hz, base, CpuStep(c, y), n, es[1..]);
      }
    }
  }

  /** The system when interrupts are first enabled: thread_a was created first, then thread_b. */
  ghost predicate Booted(c: Code, base: seq<Word>, y: Sys) {
    exists main: Task, a: Task, b: Task ::
      && a.image == InitialImage(c.entryA) && b.image == InitialImage(c.entryB) && AllRoomy(main, b, a, base)
      && AfterBoot(c, base, y, main, a, b)
  }

  ghost predicate AfterBoot(c: Code, base: seq<Word>, y: Sys, main: Task, a: Task, b: Task) {
    && y.s.regs.eip == c.idle && |a.image| >= SAVED && |b.image| >= SAVED
    && y.s == Step(Step(State([main], y.s.regs, base), Created(a)), Created(b))
    && y.countA == 0 && y.countB == 0 && y.ticks == 0 && y.seconds == 0
  }

  lemma BootInv(c: Code, hz: nat, base: seq<Word>, y: Sys)
    requires hz > 0 && Distinct(c) && Booted(c, base, y)
    ensures Inv(c, hz, base, y, 0)
  {
    var main: Task, a: Task, b: Task :|
      && a.image == InitialImage(c.entryA) && b.image == InitialImage(c.entryB) && AllRoomy(main, b, a, base)
      && AfterBoot(c, base, y, main, a, b);
    assert y.s.ring == [main, b, a];
  }

  /**
   Whenever main runs outside the timer handler, thread A has run once and thread B once per tick, and until the tick
   counter wraps the seconds are the ticks divided by the frequency; main's stack is as it was at boot.
   */
  lemma WholeSystem(c: Code, hz: nat, base: seq<Word>, y: Sys, es: seq<SysEvent>)
    requires hz > 0 && Distinct(c) && Booted(c, base, y) && PossibleRun(c, hz, y, es)
    ensures var z := RunSys(c, hz, y, es);
            z.s.regs.eip == c.idle ==>
              && z.ticks == Wrap(Timers(es)) && z.countA == z.ticks && z.countB == Wrap(2 * z.ticks)
              && (Timers(es) < WORD_LIMIT ==> z.seconds == z.ticks / hz)
              && z.s.stack == base
  {
    BootInv(c, hz, base, y);
    RunKeeps(c, hz, base, y, 0, es);
    var z, n := RunSys(c, hz, y, es), Timers(es);
    IdleAtEip(c, hz, base, z, n);
    DoubleWrap(n);
    if n < WORD_LIMIT {
      SecondsDivide(n, hz);
    }
  }

  lemma DoubleWrap(n: nat)
    ensures Wrap(2 * n) == Wrap(2 * Wrap(n))
  {
  }

  lemma {:induction false} SecondsDivide(n: nat, hz: nat)
    requires hz > 0 && n < WORD_LIMIT
    ensures SecondsAfter(n, hz) == n / hz <= n
  {
    if n > 0 {
      SecondsDivide(n - 1, hz);
      NextDivision(n, hz);
    }
  }

  /** A run of processor steps alone. */
  function CpuOnly(k: nat): seq<SysEvent> {
    seq(k, _ => Cpu)
  }

  /** No tick gets stuck: in at most six steps of the threads and the handler, main is back in its loop. */
  lemma {:induction false} MainReturns(c: Code, hz: nat, base: seq<Word>, y: Sys, n: nat) returns (k: nat)
    requires hz > 0 && Inv(c, hz, base, y, n)
    ensures k <= Rank(c, y) <= 6
    ensures PossibleRun(c, hz, y, CpuOnly(k)) && RunSys(c, hz, y, CpuOnly(k)).s.regs.eip == c.idle
    decreases Rank(c, y)
  {
    IdleAtEip(c, hz, base, y, n);
    if y.s.regs.eip == c.idle {
      k := 0;
    } else {
      CpuKeeps(c, hz, base, y, n);
      k := MainReturns(c, hz, base, CpuStep(c, y), n);
      assert CpuOnly(k + 1)[1..] == CpuOnly(k);
      k := k + 1;
    }
  }
}
