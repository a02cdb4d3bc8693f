/**
 The kernel as it boots and runs: kernel_main creates the tasks, after which timer interrupts and the two threads drive
 the scheduler in memory and registers.
 */
module Kernel {
  import opened Words
  import opened HeapModel
  import HeapRuns
  import Heap
  import opened TaskModel
  import opened TaskMemory
  import S = Scheduler
  import opened SchedulerRuns
  import opened System

  // ----- the allocations of kernel_main cannot fail

  /** After `k` allocations of at most 4096 bytes. */
  ghost predicate Few(bs: seq<Block>, k: nat) {
    HeapModel.Valid(bs) && |Live(bs)| <= k && LiveBytes(bs) <= k * 4135
  }

  lemma FewMore(bs: seq<Block>, n: Word, k: nat)
    requires Few(bs, k) && k < 100 && 0 < n <= 4096
    ensures HeapRuns.Step(bs, HeapRuns.Malloc(n)).Done? && Few(HeapRuns.Step(bs, HeapRuns.Malloc(n)).value, k + 1)
  {
    assert (|Live(bs)| + 1) * (RoundUp(n) + HEADER_SIZE) <= 100 * 4108 by {
      Product(|Live(bs)| + 1, 100, RoundUp(n) + HEADER_SIZE, 4108);
    }
    HeapRuns.GuaranteedSuccess(bs, n);
    HeapRuns.MallocCost(bs, n);
    HeapRuns.StepValid(bs, HeapRuns.Malloc(n));
    var x := HeapRuns.MallocEffect(bs, n);
    assert Live(bs) + {x} == {x} + Live(bs);
    HeapRuns.AddedOne(Live(bs), x);
  }

  lemma Product(a: nat, b: nat, x: nat, y: nat)
    requires a <= b && x <= y
    ensures a * x <= b * y
  {
    assert a * x <= b * x;
    assert b * x <= b * y;
  }

  /** Some forty tasks fit: no run of so few requests can find the heap full. */
  lemma {:induction false} CreatesSucceed(bs: seq<Block>, reqs: seq<Request>, k: nat)
    requires Few(bs, k) && k + 2 * |reqs| <= 100
    ensures HeapAfter(bs, reqs).Done?
    decreases reqs
  {
    if reqs != [] {
      if reqs[0].Create? {
        FewMore(bs, S.RECORD_SIZE, k);
        var cs := HeapRuns.Step(bs, HeapRuns.Malloc(S.RECORD_SIZE)).value;
        FewMore(cs, S.TASK_STACK_SIZE, k + 1);
        CreatesSucceed(HeapRuns.Step(cs, HeapRuns.Malloc(S.TASK_STACK_SIZE)).value, reqs[1..], k + 2);
      } else {
        CreatesSucceed(bs, reqs[1..], k);
      }
    }
  }

  /** The state after the three calls of kernel_main. */
  lemma BootStates(c: Code, main: Task, a: Task, b: Task, first: State, last: State, regs: Regs, base: seq<Word>)
    requires first == State([main], first.regs, base) && WellFormed(first)
    requires a.image == InitialImage(c.entryA) && b.image == InitialImage(c.entryB)
    requires last == State([main, b, a], regs, base) && regs.eip == c.idle && AllRoomy(main, b, a, base)
    ensures Booted(c, base, Sys(last, 0, 0, 0, 0))
  {
    assert AfterBoot(c, base, Sys(last, 0, 0, 0, 0), main, a, b);
  }

  /** What kernel_main asks of the scheduler between task_init and its idle loop; `idle` are main's registers there. */
  function BootRequests(c: Code, idle: Regs): seq<Request> {
    [Create(c.entryA), Create(c.entryB), Work(idle, 0, [])]
  }

  lemma BootRest(c: Code, idle: Regs)
    ensures var reqs := BootRequests(c, idle);
            && reqs[1..] == [Create(c.entryB), Work(idle, 0, [])]
            && reqs[1..][1..] == [Work(idle, 0, [])] && reqs[1..][1..][1..] == []
  {
  }

  lemma BootRoom(c: Code, idle: Regs, s: State)
    requires |s.ring| == 1 && s.ring[0].lo <= s.ring[0].hi && |s.stack| <= s.ring[0].hi - s.ring[0].lo
    ensures NoOverflow(Rooms(s), BootRequests(c, idle))
  {
    BootRest(c, idle);
    var reqs, rooms := BootRequests(c, idle), Rooms(s);
    assert CanServe(rooms, reqs[0]);
    var rooms1 := RoomsAfter(rooms, reqs[0]);
    assert CanServe(rooms1, reqs[1..][0]);
    var rooms2 := RoomsAfter(rooms1, reqs[1..][0]);
    assert rooms2[0] == rooms[0] && CanServe(rooms2, reqs[1..][1..][0]);
    assert NoOverflow(rooms2, reqs[1..][1..]);
    assert NoOverflow(rooms1, reqs[1..]);
  }

  lemma FirstEvent(s: State, reqs: seq<Request>, es: seq<Event>)
    requires WellFormed(s) && reqs != [] && DoesAll(s, reqs, es)
    ensures es != [] && Enabled(s, es[0]) && Does(s, reqs[0], es[0]) && WellFormed(Step(s, es[0]))
    ensures DoesAll(Step(s, es[0]), reqs[1..], es[1..])
    ensures EnabledRun(s, es) && EnabledRun(Step(s, es[0]), es[1..]) && Run(s, es) == Run(Step(s, es[0]), es[1..])
  {
    StepWellFormed(s, es[0]);
    DoneIsEnabled(s, reqs, es);
  }

  /** The events of those requests, and the state they lead to. */
  lemma BootEvents(c: Code, idle: Regs, s: State, es: seq<Event>) returns (a: Task, b: Task)
    requires WellFormed(s) && |s.ring| == 1 && DoesAll(s, BootRequests(c, idle), es)
    ensures a.image == InitialImage(c.entryA) && b.image == InitialImage(c.entryB)
    ensures S.Scheduler.OwnStack(a) && S.Scheduler.OwnStack(b)
    ensures EnabledRun(s, es) && Run(s, es) == State([s.ring[0], b, a], idle, s.stack)
  {
    BootRest(c, idle);
    var reqs, es1, es2 := BootRequests(c, idle), es[1..], es[1..][1..];
    FirstEvent(s, reqs, es);
    a := es[0].t;
    var s1 := Step(s, es[0]);
    assert s1 == State([s.ring[0], a], s.regs, s.stack);
    FirstEvent(s1, reqs[1..], es1);
    b := es1[0].t;
    var s2 := Step(s1, es1[0]);
    assert s2 == State([s.ring[0], b, a], s.regs, s.stack);
    FirstEvent(s2, reqs[1..][1..], es2);
    assert [] + s.stack[0..] == s.stack;
    assert Step(s2, es2[0]) == State([s.ring[0], b, a], idle, s.stack);
  }

  /** Every task's structure and stack lie within memory. */
  lemma TasksInMemory(s: S.Scheduler, i: nat)
    requires s.Valid() && i < |s.state.ring|
    ensures var t := s.state.ring[i]; t.lo <= t.hi && 4 * t.hi < WORD_LIMIT && 4 * t.node < WORD_LIMIT
  {
    assert RecordAt(s.ram[..], s.state.ring, i);
  }

  /**
   kernel_main from task_init to the idle loop, on an empty heap and a boot stack outside it: none of the allocations
   can fail, and the system is in the state that the whole-system theorem starts from.
   */
  method StartTasks(c: Code, heap: Heap.Heap, regs: Regs, esp: Word, idle: Regs, ghost lo: nat, ghost hi: nat, ghost base: seq<Word>)
    returns (s: S.Scheduler)
    requires heap.Valid() && heap.blocks == Initial()
    requires lo <= hi <= heap.ram.Length && (4 * hi <= heap.heapStart || heap.heapStart + HEAP_MAX_SIZE <= 4 * lo)
    requires OnStack(heap.ram[..], lo, hi, base) && esp == 4 * (hi - |base|) && lo + 9 + |base| <= hi
    requires idle.eip == c.idle
    modifies heap, heap.ram
    ensures fresh(s) && s.Valid() && s.heap == heap && s.ram == heap.ram
    ensures Booted(c, base, Sys(s.state, 0, 0, 0, 0))
  {
    ghost var first;
    s, first := StartMain(heap, regs, esp, lo, hi, base);
    BootRoom(c, idle, first);
    CreatesSucceed(heap.blocks, BootRequests(c, idle), 1);
    var n;
    ghost var es;
    n, es := RunAll(s, BootRequests(c, idle));
    assert BootRequests(c, idle)[..n] == BootRequests(c, idle);
    FinishBoot(c, idle, first, s, es, base);
  }

  /** task_init on an empty heap. */
  method StartMain(heap: Heap.Heap, regs: Regs, esp: Word, ghost lo: nat, ghost hi: nat, ghost base: seq<Word>)
    returns (s: S.Scheduler, ghost first: State)
    requires heap.Valid() && heap.blocks == Initial()
    requires lo <= hi <= heap.ram.Length && (4 * hi <= heap.heapStart || heap.heapStart + HEAP_MAX_SIZE <= 4 * lo)
    requires OnStack(heap.ram[..], lo, hi, base) && esp == 4 * (hi - |base|)
    modifies heap, heap.ram
    ensures fresh(s) && s.Valid() && s.heap == heap && s.ram == heap.ram && s.state == first && WellFormed(first)
    ensures |first.ring| == 1 && first.ring[0].lo == lo && first.ring[0].hi == hi && first.stack == base
    ensures Few(heap.blocks, 1)
  {
    HeapRuns.InitialValid();
    FewMore(heap.blocks, S.RECORD_SIZE, 0);
    s := new S.Scheduler(heap, regs, esp);
    var created;
    ghost var main;
    created, main := s.TaskInit(lo, hi, base);
    first := s.state;
  }

  lemma FinishBoot(c: Code, idle: Regs, first: State, s: S.Scheduler, es: seq<Event>, base: seq<Word>)
    requires WellFormed(first) && |first.ring| == 1 && first.stack == base && idle.eip == c.idle
    requires DoesAll(first, BootRequests(c, idle), es) && EnabledRun(first, es)
    requires s.Valid() && s.state == Run(first, es) && first.ring[0].lo + 9 + |base| <= first.ring[0].hi
    ensures Booted(c, base, Sys(s.state, 0, 0, 0, 0))
  {
    var a, b := BootEvents(c, idle, first, es);
    TasksInMemory(s, 0);
    TasksInMemory(s, 1);
    TasksInMemory(s, 2);
    BootStates(c, first.ring[0], a, b, first, s.state, idle, base);
  }

  // ----- timer_handler and the threads, on the scheduler

  /** The events of `es` that take place: a timer signal that finds interrupts off does not. */
  ghost function Taken(c: Code, hz: nat, y: Sys, es: seq<SysEvent>): seq<SysEvent>
    requires hz > 0
    decreases es
  {
    if es == [] then []
    else if Possible(c, y, es[0]) then [es[0]] + Taken(c, hz, Next(c, hz, y, es[0]), es[1..])
    else Taken(c, hz, y, es[1..])
  }

  lemma TurnOfA(c: Code, y: Sys, after: State, n: Word)
    requires CpuEnabled(c, y) && y.s.regs.eip in {c.entryA, c.loopA} && y.s.regs.eip !in {c.yieldRet, c.handler}
    requires after == CallYield(c, y.s, [c.loopA]) && n == Wrap(y.countA + 1)
    ensures CpuStep(c, y) == Sys(after, n, y.countB, y.ticks, y.seconds)
  {
  }

  lemma TurnOfB(c: Code, y: Sys, after: State, n: Word)
    requires CpuEnabled(c, y) && y.s.regs.eip in {c.entryB, c.loopB}
    requires y.s.regs.eip !in {c.yieldRet, c.handler, c.entryA, c.loopA}
    requires after == CallYield(c, y.s, [c.loopB]) && n == Wrap(y.countB + 2)
    ensures CpuStep(c, y) == Sys(after, y.countA, n, y.ticks, y.seconds)
  {
  }

  lemma TurnOfReturn(c: Code, y: Sys, after: State, n: nat)
    requires CpuEnabled(c, y) && y.s.regs.eip in {c.yieldRet, c.handler} && n == (if y.s.regs.eip == c.yieldRet then 2 else 0)
    requires after == Return(y.s, n)
    ensures CpuStep(c, y) == y.(s := after)
  {
  }

  lemma TurnOfTimer(c: Code, hz: nat, y: Sys, after: State, ticks: Word, seconds: Word)
    requires hz > 0 && CanCall(c, y.s, [c.handler, c.idle]) && after == CallYield(c, y.s, [c.handler, c.idle])
    requires ticks == Wrap(y.ticks + 1) && seconds == if ticks % hz == 0 then Wrap(y.seconds + 1) else y.seconds
    ensures TimerStep(c, hz, y) == Sys(after, y.countA, y.countB, ticks, seconds)
  {
  }

  class Machine {
    const s: S.Scheduler
    const c: Code
    const hz: Word
    var ticks: Word
    var seconds: Word
    var countA: Word        // thread_a_count
    var countB: Word        // thread_b_count

    ghost predicate Valid()
      reads s, s.ram, s.heap
    {
      s.Valid() && hz > 0
    }

    ghost function View(): Sys
      reads this, s
    {
      Sys(s.state, countA, countB, ticks, seconds)
    }

    constructor (s: S.Scheduler, c: Code, hz: Word)
      requires s.Valid() && hz > 0
      ensures this.s == s && this.c == c && this.hz == hz && Valid() && View() == Sys(s.state, 0, 0, 0, 0)
    {
      this.s, this.c, this.hz := s, c, hz;
      ticks, seconds, countA, countB := 0, 0, 0, 0;
    }

    /** Pushes `pushed`, the return address last pushed first, and runs task_yield. */
    method Call(pushed: seq<Word>)
      requires Valid() && CanCall(c, s.state, pushed)
      modifies s, s.ram
      ensures Valid() && old(CanCall(c, s.state, pushed)) && s.state == CallYield(c, old(s.state), pushed)
    {
      ghost var st := s.state;
      assert st.stack[0..] == st.stack;
      s.Work(Regs(s.ebx, s.esi, s.edi, s.ebp, s.eip), 0, pushed);
      s.TaskYield(c.yieldRet);
    }

    /** `ret` with `n` words of arguments in front, or `iret`. */
    method ReturnTo(n: nat)
      requires Valid() && n < |s.state.stack|
      modifies s, s.ram
      ensures Valid() && WellFormed(old(s.state)) && s.state == Return(old(s.state), n)
    {
      ghost var st := s.state;
      TopOfStack(n);
      var to := s.ram[s.esp / 4 + n];
      assert [] + st.stack[n + 1..] == st.stack[n + 1..];
      s.Work(Regs(s.ebx, s.esi, s.edi, s.ebp, to), n + 1, []);
    }

    lemma TopOfStack(n: nat)
      requires s.Valid() && n < |s.state.stack|
      ensures s.esp / 4 + n < s.ram.Length && s.ram[s.esp / 4 + n] == s.state.stack[n]
      ensures |s.state.stack| <= s.state.ring[0].hi - s.state.ring[0].lo
    {
      var t := s.state.ring[0];
      assert s.ram[..][t.hi - |s.state.stack| + n] == s.state.stack[n];
    }

    /** timer_handler, entered from main's idle loop. */
    method TimerHandler()
      requires Valid() && CanCall(c, s.state, [c.handler, c.idle])
      modifies this`ticks, this`seconds, s, s.ram
      ensures Valid() && old(CanCall(c, s.state, [c.handler, c.idle]))
      ensures View() == TimerStep(c, hz, old(View()))
    {
      ghost var y := View();
      Count();
      Call([c.handler, c.idle]);
      TurnOfTimer(c, hz, y, s.state, ticks, seconds);
    }

    /** The counters of timer_handler. */
    method Count()
      requires hz > 0
      modifies this`ticks, this`seconds
      ensures ticks == Wrap(old(ticks) + 1)
      ensures seconds == if ticks % hz == 0 then Wrap(old(seconds) + 1) else old(seconds)
    {
      ticks := Wrap(ticks as int + 1);
      if ticks % hz == 0 {
        seconds := Wrap(seconds as int + 1);
      }
    }

    /** One turn of thread_a, from its entry or from where its last call returned. */
    method ThreadA()
      requires Valid() && CanCall(c, s.state, [c.loopA])
      modifies this`countA, s, s.ram
      ensures Valid() && countA == Wrap(old(countA) as int + 1)
      ensures old(CanCall(c, s.state, [c.loopA])) && s.state == CallYield(c, old(s.state), [c.loopA])
    {
      countA := Wrap(countA as int + 1);
      Call([c.loopA]);
    }

    method ThreadB()
      requires Valid() && CanCall(c, s.state, [c.loopB])
      modifies this`countB, s, s.ram
      ensures Valid() && countB == Wrap(old(countB) as int + 2)
      ensures old(CanCall(c, s.state, [c.loopB])) && s.state == CallYield(c, old(s.state), [c.loopB])
    {
      countB := Wrap(countB as int + 2);
      Call([c.loopB]);
    }

    /** task_yield's return to its caller, and the interrupt's. */
    method Returns()
      requires Valid() && CpuEnabled(c, View()) && s.eip in {c.yieldRet, c.handler}
      modifies s, s.ram
      ensures Valid() && old(CpuEnabled(c, View())) && View() == CpuStep(c, old(View()))
    {
      ghost var y := View();
      if s.eip == c.yieldRet {
        ReturnTo(2);
        TurnOfReturn(c, y, s.state, 2);
      } else {
        ReturnTo(0);
        TurnOfReturn(c, y, s.state, 0);
      }
    }

    /** The running code up to its next call or return; nothing happens in main's hlt loop. */
    method Cpu()
      requires Valid() && CpuEnabled(c, View())
      modifies this`countA, this`countB, s, s.ram
      ensures Valid() && old(CpuEnabled(c, View())) && View() == CpuStep(c, old(View()))
    {
      ghost var y := View();
      if s.eip == c.yieldRet || s.eip == c.handler {
        Returns();
      } else if s.eip == c.entryA || s.eip == c.loopA {
        ThreadA();
        TurnOfA(c, y, s.state, countA);
      } else if s.eip == c.entryB || s.eip == c.loopB {
        ThreadB();
        TurnOfB(c, y, s.state, countB);
      }
    }

    /**
     Any sequence of timer signals and processor steps, carried out in memory and registers: a signal that finds
     interrupts off is not taken.
     */
    method RunAll(es: seq<SysEvent>, ghost base: seq<Word>, ghost n: nat)
      requires Valid() && Inv(c, hz, base, View(), n)
      modifies this, s, s.ram
      ensures Valid() && PossibleRun(c, hz, old(View()), Taken(c, hz, old(View()), es))
      ensures View() == RunSys(c, hz, old(View()), Taken(c, hz, old(View()), es))
      decreases es
    {
      if es == [] {
        return;
      }
      ghost var y := View();
      if es[0].Timer? {
        if s.eip == c.idle {
          IdleAtEip(c, hz, base, y, n);
          StepFromIdle(c, hz, base, y, n);
          TimerHandler();
          RunAll(es[1..], base, n + 1);
        } else {
          RunAll(es[1..], base, n);
        }
      } else {
        CpuKeeps(c, hz, base, y, n);
        Cpu();
        RunAll(es[1..], base, n);
      }
    }
  }

  /**
   From an empty heap: kernel_main's calls, then any run.  Whenever main is outside its handler, the counters are the
   ticks and twice the ticks, and main's stack is as at boot.
   */
  method BootAndRun(c: Code, heap: Heap.Heap, regs: Regs, esp: Word, idle: Regs, hz: Word, es: seq<SysEvent>,
                    ghost lo: nat, ghost hi: nat, ghost base: seq<Word>)
    returns (m: Machine, ghost boot: Sys)
    requires heap.Valid() && heap.blocks == Initial() && hz > 0 && Distinct(c)
    requires lo <= hi <= heap.ram.Length && (4 * hi <= heap.heapStart || heap.heapStart + HEAP_MAX_SIZE <= 4 * lo)
    requires OnStack(heap.ram[..], lo, hi, base) && esp == 4 * (hi - |base|) && lo + 9 + |base| <= hi
    requires idle.eip == c.idle
    modifies heap, heap.ram
    ensures m.Valid() && m.c == c && m.hz == hz && m.s.heap == heap
    ensures Booted(c, base, boot) && PossibleRun(c, hz, boot, Taken(c, hz, boot, es))
    ensures m.View() == RunSys(c, hz, boot, Taken(c, hz, boot, es))
    ensures var n := Timers(Taken(c, hz, boot, es));
            m.s.eip == c.idle ==>
              && m.ticks == Wrap(n) && m.countA == m.ticks && m.countB == Wrap(2 * m.ticks)
              && (n < WORD_LIMIT ==> m.seconds == m.ticks / hz)
              && m.s.state.stack == base
  {
    var s := StartTasks(c, heap, regs, esp, idle, lo, hi, base);
    m := new Machine(s, c, hz);
    boot := m.View();
    BootInv(c, hz, base, boot);
    m.RunAll(es, base, 0);
    WholeSystem(c, hz, base, boot, Taken(c, hz, boot, es));
  }
}
