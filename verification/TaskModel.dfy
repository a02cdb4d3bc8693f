/**
 The scheduler as a ring of tasks.  A task that is not running is its stack image: the words from its saved stack
 pointer up to the end of its stack, with the four saved registers and the return address on top.
 */
module TaskModel {
  import opened Words
  import opened Arithmetic
  import opened HeapModel

  /** The registers that context_switch saves, and the instruction pointer. */
  datatype Regs = Regs(ebx: Word, esi: Word, edi: Word, ebp: Word, eip: Word)

  /**
   A task: the word index of its `struct task`, the words [lo, hi) of its stack, the allocations that both lie in
   (main's stack is not on the heap), and, while it is not running, its stack image.
   */
  datatype Task = Task(node: nat, lo: nat, hi: nat, record: Alloc, home: Option<Alloc>, pid: Word, image: seq<Word>)

  function StackPointer(t: Task): int {
    4 * (t.hi - |t.image|)
  }

  /** The ring from the running task on, the processor's registers, and the contents of the running task's stack. */
  datatype State = State(ring: seq<Task>, regs: Regs, stack: seq<Word>)

  datatype Event = Created(t: Task) | Yielded(ret: Word) | Worked(regs: Regs, stack: seq<Word>)

  const SAVED := 5    // words that context_switch's pops and `ret` take off an image

  ghost predicate WellFormed(s: State) {
    s.ring != [] && forall i :: 0 < i < |s.ring| ==> |s.ring[i].image| >= SAVED
  }

  /** The registers with which a task resumes. */
  function Restored(image: seq<Word>): Regs
    requires |image| >= SAVED
  {
    Regs(image[3], image[2], image[1], image[0], image[4])
  }

  /** The image that context_switch leaves: it was called with the two arguments below the return address. */
  function Saved(regs: Regs, ret: Word, oldPtr: Word, newEsp: Word, stack: seq<Word>): seq<Word> {
    [regs.ebp, regs.edi, regs.esi, regs.ebx, ret, oldPtr, newEsp] + stack
  }

  /** The hand-built stack of a new task. */
  function InitialImage(entry: Word): seq<Word> {
    [0, 0, 0, 0, entry]
  }

  ghost predicate Enabled(s: State, e: Event) {
    match e
    case Created(t) => |t.image| >= SAVED
    case Yielded(_) => |s.ring| > 1 ==> 0 <= StackPointer(s.ring[1]) < WORD_LIMIT && 4 * s.ring[0].node < WORD_LIMIT
    case Worked(_, _) => true
  }

  function Step(s: State, e: Event): State
    requires WellFormed(s) && Enabled(s, e)
  {
    match e
    case Created(t) => s.(ring := [s.ring[0], t] + s.ring[1..])
    case Yielded(ret) =>
      if |s.ring| == 1 then s else
        var image := Saved(s.regs, ret, 4 * s.ring[0].node, StackPointer(s.ring[1]), s.stack);
        State(s.ring[1..] + [s.ring[0].(image := image)], Restored(s.ring[1].image), s.ring[1].image[SAVED..])
    case Worked(regs, stack) => s.(regs := regs, stack := stack)
  }

  lemma StepWellFormed(s: State, e: Event)
    requires WellFormed(s) && Enabled(s, e)
    ensures WellFormed(Step(s, e))
  {
  }

  ghost predicate EnabledRun(s: State, es: seq<Event>)
    requires WellFormed(s)
    decreases es
  {
    es == [] || (Enabled(s, es[0]) && (StepWellFormed(s, es[0]); EnabledRun(Step(s, es[0]), es[1..])))
  }

  ghost function Run(s: State, es: seq<Event>): (r: State)
    requires WellFormed(s) && EnabledRun(s, es)
    ensures WellFormed(r)
    decreases es
  {
    if es == [] then s else
      StepWellFormed(s, es[0]);
      Run(Step(s, es[0]), es[1..])
  }

  // ----- context preservation

  /** Task `t` is the one at place `p` of the ring, and not running. */
  ghost predicate Suspended(s: State, p: int, t: Task) {
    0 < p < |s.ring| && s.ring[p] == t
  }

  /** Task `t` runs with exactly the registers, return address and stack of its image. */
  ghost predicate Resumed(s: State, t: Task) {
    && |s.ring| > 0 && s.ring[0] == t && |t.image| >= SAVED
    && s.regs == Restored(t.image) && s.stack == t.image[SAVED..]
  }

  /** How many places towards the head of the ring an event, or a run of events, moves a task that is not running. */
  function Advance(e: Event): int {
    match e
    case Created(_) => -1
    case Yielded(_) => 1
    case Worked(_, _) => 0
  }

  function Advances(es: seq<Event>): int {
    if es == [] then 0 else Advance(es[0]) + Advances(es[1..])
  }

  lemma SuspendedOrResumed(s: State, e: Event, i: nat)
    requires WellFormed(s) && Enabled(s, e) && 0 < i < |s.ring|
    ensures if Advance(e) < i then Suspended(Step(s, e), i - Advance(e), s.ring[i]) else Resumed(Step(s, e), s.ring[i])
  {
  }

  /** After `es` the task at place `i` has not run yet: it is `i - Advances(es)` places from the head, with its image. */
  ghost predicate Waits(s: State, es: seq<Event>, i: nat)
    requires WellFormed(s) && i < |s.ring|
  {
    EnabledRun(s, es) && Advances(es) < i && Suspended(Run(s, es), i - Advances(es), s.ring[i])
  }

  /** After `es` it runs, with its image. */
  ghost predicate Runs(s: State, es: seq<Event>, i: nat)
    requires WellFormed(s) && i < |s.ring|
  {
    EnabledRun(s, es) && Advances(es) == i && Resumed(Run(s, es), s.ring[i])
  }

  /** The same seen from the state after the first event. */
  lemma SeenLater(s: State, es: seq<Event>, i: nat)
    requires WellFormed(s) && es != [] && Enabled(s, es[0]) && 0 < i < |s.ring| && Advance(es[0]) < i
    requires WellFormed(Step(s, es[0]))
    ensures i - Advance(es[0]) < |Step(s, es[0]).ring|
    ensures Waits(Step(s, es[0]), es[1..], i - Advance(es[0])) ==> Waits(s, es, i)
    ensures Runs(Step(s, es[0]), es[1..], i - Advance(es[0])) ==> Runs(s, es, i)
  {
    SuspendedOrResumed(s, es[0], i);
  }

  /**
   However the tasks create, yield and work, a suspended task keeps its image until the moment it runs again, and then
   runs with it.  That moment is the first at which there have been `i` more yields than creates, where `i` is the
   task's place in the ring: `k` is the length of the run up to there, or exceeds the run when it is not reached.
   */
  lemma {:induction false} ContextPreserved(s: State, es: seq<Event>, i: nat) returns (k: nat)
    requires WellFormed(s) && EnabledRun(s, es) && 0 < i < |s.ring|
    ensures 0 < k <= |es| + 1
    ensures forall j :: 0 <= j < k ==> Waits(s, es[..j], i)
    ensures k <= |es| ==> Runs(s, es[..k], i)
    decreases es
  {
    assert es[..0] == [];
    k := 1;
    if es != [] {
      var e, rest := es[0], es[1..];
      StepWellFormed(s, e);
      SuspendedOrResumed(s, e, i);
      assert es[..1] == [e] && [e][1..] == [];
      if Advance(e) < i {
        var m := ContextPreserved(Step(s, e), rest, i - Advance(e));
        k := m + 1;
        forall j | 0 < j <= k && j <= |es|
          ensures j < k ==> Waits(s, es[..j], i)
          ensures j == k ==> Runs(s, es[..j], i)
        {
          assert es[..j][1..] == rest[..j - 1];
          SeenLater(s, es[..j], i);
        }
      }
    }
  }

  /** A task that yields finds, when it runs again, its registers, its return address and its stack as it left them. */
  lemma YieldRoundTrip(s: State, ret: Word, es: seq<Event>) returns (k: nat)
    requires WellFormed(s) && |s.ring| > 1 && Enabled(s, Yielded(ret))
    requires WellFormed(Step(s, Yielded(ret))) && EnabledRun(Step(s, Yielded(ret)), es)
    ensures 0 < k <= |es| + 1 && forall j :: 0 <= j < k ==> Advances(es[..j]) < |s.ring| - 1
    ensures var s' := Step(s, Yielded(ret));
            k <= |es| ==>
              && EnabledRun(s', es[..k]) && Advances(es[..k]) == |s.ring| - 1
              && var r := Run(s', es[..k]);
                 && r.ring[0].node == s.ring[0].node && r.ring[0].pid == s.ring[0].pid
                 && r.regs == s.regs.(eip := ret)
                 && |r.stack| == |s.stack| + 2 && r.stack[2..] == s.stack
  {
    k := ContextPreserved(Step(s, Yielded(ret)), es, |s.ring| - 1);
  }

  /** A new task first runs at its entry point with the four registers zero and nothing on its stack. */
  lemma FirstRun(s: State, t: Task, entry: Word, es: seq<Event>) returns (k: nat)
    requires WellFormed(s) && t.image == InitialImage(entry)
    requires WellFormed(Step(s, Created(t))) && EnabledRun(Step(s, Created(t)), es)
    ensures 0 < k <= |es| + 1 && forall j :: 0 <= j < k ==> Advances(es[..j]) < 1
    ensures var s' := Step(s, Created(t));
            k <= |es| ==>
              && EnabledRun(s', es[..k]) && Advances(es[..k]) == 1
              && var r := Run(s', es[..k]);
                 r.ring[0] == t && r.regs == Regs(0, 0, 0, 0, entry) && r.stack == []
  {
    k := ContextPreserved(Step(s, Created(t)), es, 1);
  }

  // ----- round robin

  /** The order of the tasks, by the address of their structures. */
  function Order(ring: seq<Task>): seq<nat> {
    seq(|ring|, i requires 0 <= i < |ring| => ring[i].node)
  }

  function Rotate(order: seq<nat>, n: nat): seq<nat>
    requires n <= |order|
  {
    order[n..] + order[..n]
  }

  predicate OnlyYieldsAndWork(es: seq<Event>) {
    forall e :: e in es ==> !e.Created?
  }

  function Yields(es: seq<Event>): nat {
    if es == [] then 0 else (if es[0].Yielded? then 1 else 0) + Yields(es[1..])
  }

  /** `n` rotations by one place. */
  function Turned(order: seq<nat>, n: nat): seq<nat>
    requires order != []
    decreases n
  {
    if n == 0 then order else Turned(Rotate(order, 1), n - 1)
  }

  lemma {:induction false} TurnedIs(order: seq<nat>, n: nat)
    requires order != []
    ensures Turned(order, n) == Rotate(order, n % |order|)
    decreases n
  {
    if n > 0 {
      TurnedIs(Rotate(order, 1), n - 1);
      RotateNext(order, n - 1);
    } else {
      assert Rotate(order, 0) == order;
    }
  }

  lemma RotateNext(order: seq<nat>, n: nat)
    requires order != []
    ensures Rotate(Rotate(order, 1), n % |order|) == Rotate(order, (n + 1) % |order|)
  {
    NextRemainder(n, |order|);
  }

  lemma StepOrder(s: State, e: Event)
    requires WellFormed(s) && Enabled(s, e) && !e.Created?
    ensures Order(Step(s, e).ring) == if e.Yielded? then Rotate(Order(s.ring), 1) else Order(s.ring)
  {
  }

  lemma {:induction false} YieldsTurn(s: State, es: seq<Event>)
    requires WellFormed(s) && EnabledRun(s, es) && OnlyYieldsAndWork(es)
    ensures Order(s.ring) != [] && Order(Run(s, es).ring) == Turned(Order(s.ring), Yields(es))
    decreases es
  {
    if es != [] {
      StepWellFormed(s, es[0]);
      StepOrder(s, es[0]);
      YieldsTurn(Step(s, es[0]), es[1..]);
    }
  }

  /** Without creates, yields rotate the ring, one place each. */
  lemma RoundRobin(s: State, es: seq<Event>)
    requires WellFormed(s) && EnabledRun(s, es) && OnlyYieldsAndWork(es)
    ensures Order(Run(s, es).ring) == Rotate(Order(s.ring), Yields(es) % |s.ring|)
  {
    YieldsTurn(s, es);
    TurnedIs(Order(s.ring), Yields(es));
  }

  lemma {:induction false} PrefixEnabled(s: State, es: seq<Event>, j: nat)
    requires WellFormed(s) && EnabledRun(s, es) && j <= |es|
    ensures EnabledRun(s, es[..j])
    decreases es
  {
    if j > 0 {
      StepWellFormed(s, es[0]);
      PrefixEnabled(Step(s, es[0]), es[1..], j - 1);
      assert es[..j][1..] == es[1..][..j - 1];
    }
  }

  /** So the tasks run in ring order, however many turns the run takes. */
  lemma FullTurn(s: State, es: seq<Event>)
    requires WellFormed(s) && EnabledRun(s, es) && OnlyYieldsAndWork(es)
    ensures Run(s, es).ring[0].node == s.ring[Yields(es) % |s.ring|].node
    ensures Yields(es) % |s.ring| == 0 ==> Order(Run(s, es).ring) == Order(s.ring)
  {
    RoundRobin(s, es);
    assert Order(Run(s, es).ring)[0] == Run(s, es).ring[0].node;
    assert Rotate(Order(s.ring), 0) == Order(s.ring);
  }

  /** Different tasks have different structures; `TaskMemory.Holds` says so of every ring in memory. */
  ghost predicate DistinctNodes(ring: seq<Task>) {
    forall i, j :: 0 <= i < j < |ring| ==> ring[i].node != ring[j].node
  }

  /** At two moments of a run the same task runs exactly when the yields between them make up whole turns. */
  lemma EachOnce(s: State, es: seq<Event>, i: nat, j: nat)
    requires WellFormed(s) && DistinctNodes(s.ring) && EnabledRun(s, es) && OnlyYieldsAndWork(es)
    requires i <= |es| && j <= |es|
    ensures EnabledRun(s, es[..i]) && EnabledRun(s, es[..j])
    ensures Run(s, es[..i]).ring[0].node == Run(s, es[..j]).ring[0].node
            <==> Yields(es[..i]) % |s.ring| == Yields(es[..j]) % |s.ring|
  {
    PrefixEnabled(s, es, i);
    PrefixEnabled(s, es, j);
    FullTurn(s, es[..i]);
    FullTurn(s, es[..j]);
  }

  lemma {:induction false} AdvancesAreYields(es: seq<Event>)
    requires OnlyYieldsAndWork(es)
    ensures Advances(es) == Yields(es)
  {
    if es != [] {
      AdvancesAreYields(es[1..]);
    }
  }

  /** Without creates, every task has run again by the time the others have yielded once each. */
  lemma WithinATurn(s: State, es: seq<Event>, i: nat) returns (k: nat)
    requires WellFormed(s) && EnabledRun(s, es) && OnlyYieldsAndWork(es) && 0 < i < |s.ring|
    requires Yields(es) >= |s.ring| - 1
    ensures k <= |es| && EnabledRun(s, es[..k]) && Resumed(Run(s, es[..k]), s.ring[i]) && Yields(es[..k]) == i
  {
    k := ContextPreserved(s, es, i);
    assert es[..|es|] == es;
    AdvancesAreYields(es);
    if k <= |es| {
      AdvancesAreYields(es[..k]);
    }
  }

  /** Creating a task and yielding to it, again and again, each new task doing the same. */
  function Chain(ts: seq<Task>, ret: Word): seq<Event> {
    if ts == [] then [] else [Created(ts[0]), Yielded(ret)] + Chain(ts[1..], ret)
  }

  lemma {:induction false} ChainAdvances(ts: seq<Task>, ret: Word, j: nat)
    requires j <= |Chain(ts, ret)|
    ensures -1 <= Advances(Chain(ts, ret)[..j]) <= 0 && |Chain(ts, ret)| == 2 * |ts|
    ensures j == |Chain(ts, ret)| ==> Advances(Chain(ts, ret)[..j]) == 0
    decreases ts
  {
    if ts != [] {
      var es := Chain(ts, ret);
      if j < 2 {
        ChainAdvances(ts[1..], ret, 0);
        assert j == 1 ==> es[..j][1..] == [];
      } else {
        ChainAdvances(ts[1..], ret, j - 2);
        assert es[..j][1..][1..] == Chain(ts[1..], ret)[..j - 2];
        assert es[..j][1..][0] == Yielded(ret);
      }
    }
  }

  /** Round robin is not fair to older tasks: such a chain keeps every one of them waiting for as long as it goes on. */
  lemma ChainStarves(s: State, ts: seq<Task>, ret: Word, i: nat)
    requires WellFormed(s) && EnabledRun(s, Chain(ts, ret)) && 0 < i < |s.ring|
    ensures Suspended(Run(s, Chain(ts, ret)), i, s.ring[i])
  {
    var es := Chain(ts, ret);
    forall j: nat | j <= |es| ensures Advances(es[..j]) <= 0 && (j == |es| ==> Advances(es[..j]) == 0) {
      ChainAdvances(ts, ret, j);
    }
    NeverAdvanced(s, es, i);
  }

  /** A task stays suspended through a run with never more yields than creates. */
  lemma NeverAdvanced(s: State, es: seq<Event>, i: nat)
    requires WellFormed(s) && EnabledRun(s, es) && 0 < i < |s.ring|
    requires forall j: nat :: j <= |es| ==> Advances(es[..j]) <= 0
    ensures es == es[..|es|] && Suspended(Run(s, es), i - Advances(es), s.ring[i])
  {
    assert es == es[..|es|];
    var k := ContextPreserved(s, es, i);
    assert k > |es|;
    assert Waits(s, es[..|es|], i);
  }

  function Creates(ts: seq<Task>): seq<Event> {
    seq(|ts|, i requires 0 <= i < |ts| => Created(ts[i]))
  }

  function Reversed(ts: seq<Task>): seq<Task> {
    if ts == [] then [] else Reversed(ts[1..]) + [ts[0]]
  }

  /** Tasks created back to back by one task run newest first, right after it and before all older ones. */
  lemma {:induction false} NewestFirst(s: State, ts: seq<Task>)
    requires WellFormed(s) && EnabledRun(s, Creates(ts))
    ensures Run(s, Creates(ts)).ring == [s.ring[0]] + Reversed(ts) + s.ring[1..]
    decreases ts
  {
    if ts != [] {
      var s' := Step(s, Created(ts[0]));
      assert Creates(ts)[1..] == Creates(ts[1..]);
      StepWellFormed(s, Created(ts[0]));
      NewestFirst(s', ts[1..]);
      assert s'.ring[1..] == [ts[0]] + s.ring[1..];
    }
  }
}
