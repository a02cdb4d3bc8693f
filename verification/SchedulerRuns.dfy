/**
 Runs of the scheduler itself: any sequence of task creations, yields and work, carried out in memory and registers.
 */
module SchedulerRuns {
  import opened Words
  import opened HeapModel
  import opened TaskModel
  import opened TaskMemory
  import S = Scheduler

  /**
   What the running task does next.  Work leaves it with registers `regs`, takes `drop` words off its stack and puts
   `words` on top.
   */
  datatype Request = Create(entry: Word) | Yield(ret: Word) | Work(regs: Regs, drop: nat, words: seq<Word>)

  // ----- stack room

  /** How many words of its stack a task uses, and how many it has. */
  datatype Room = Room(used: nat, size: nat)

  function RoomOf(t: Task, used: nat): Room {
    Room(used, if t.lo <= t.hi then t.hi - t.lo else 0)
  }

  function Rooms(s: State): seq<Room> {
    seq(|s.ring|, i requires 0 <= i < |s.ring| =>
      RoomOf(s.ring[i], if i == 0 then |s.stack| else |s.ring[i].image|))
  }

  const CALL_WORDS := 7   // what a call of context_switch puts on the stack

  /** The request stays within the stack of the running task. */
  predicate CanServe(rooms: seq<Room>, r: Request) {
    && rooms != []
    && match r
       case Create(_) => true
       case Yield(_) => |rooms| > 1 ==> rooms[0].used + CALL_WORDS <= rooms[0].size && rooms[1].used >= SAVED
       case Work(_, drop, words) => drop <= rooms[0].used && rooms[0].used - drop + |words| <= rooms[0].size
  }

  function RoomsAfter(rooms: seq<Room>, r: Request): seq<Room>
    requires CanServe(rooms, r)
  {
    match r
    case Create(_) => [rooms[0], Room(SAVED, STACK_WORDS)] + rooms[1..]
    case Yield(_) =>
      if |rooms| == 1 then rooms else
        [Room(rooms[1].used - SAVED, rooms[1].size)] + rooms[2..] + [Room(rooms[0].used + CALL_WORDS, rooms[0].size)]
    case Work(_, drop, words) => [Room(rooms[0].used - drop + |words|, rooms[0].size)] + rooms[1..]
  }

  /** No task overflows its stack: a condition on the requests and on the stacks at the start alone. */
  predicate NoOverflow(rooms: seq<Room>, reqs: seq<Request>)
    decreases reqs
  {
    reqs == [] || (CanServe(rooms, reqs[0]) && NoOverflow(RoomsAfter(rooms, reqs[0]), reqs[1..]))
  }

  // ----- requests and events

  /** Event `e` is what request `r` asks for in state `s`. */
  ghost predicate Does(s: State, r: Request, e: Event) {
    match r
    case Create(entry) =>
      e.Created? && e.t.image == InitialImage(entry) && S.Scheduler.OwnStack(e.t) && e.t.pid == |s.ring|
    case Yield(ret) => e == Yielded(ret)
    case Work(regs, drop, words) => drop <= |s.stack| && e == Worked(regs, words + s.stack[drop..])
  }

  ghost predicate DoesAll(s: State, reqs: seq<Request>, es: seq<Event>)
    requires WellFormed(s)
    decreases reqs
  {
    if reqs == [] then es == [] else
      && es != [] && Enabled(s, es[0]) && Does(s, reqs[0], es[0])
      && (StepWellFormed(s, es[0]); DoesAll(Step(s, es[0]), reqs[1..], es[1..]))
  }

  /** The creates of a run, as calls on the heap. */
  function HeapAfter(bs: seq<Block>, reqs: seq<Request>): Outcome<seq<Block>>
    decreases reqs
  {
    if reqs == [] then Done(bs)
    else if reqs[0].Create? then
      match S.Scheduler.CreateStep(bs)
      case Panicked => Panicked
      case Done(cs) => HeapAfter(cs, reqs[1..])
    else HeapAfter(bs, reqs[1..])
  }

  lemma {:induction false} DoneIsEnabled(s: State, reqs: seq<Request>, es: seq<Event>)
    requires WellFormed(s) && DoesAll(s, reqs, es)
    ensures EnabledRun(s, es) && |es| == |reqs|
    decreases reqs
  {
    if reqs != [] {
      DoneIsEnabled(Step(s, es[0]), reqs[1..], es[1..]);
    }
  }

  lemma RoomsCreate(s: State, t: Task)
    requires WellFormed(s) && |t.image| == SAVED && S.Scheduler.OwnStack(t)
    ensures Rooms(Step(s, Created(t))) == [Rooms(s)[0], Room(SAVED, STACK_WORDS)] + Rooms(s)[1..]
  {
  }

  lemma RoomsYield(s: State, ret: Word)
    requires WellFormed(s) && |s.ring| > 1 && Enabled(s, Yielded(ret))
    ensures var rooms := Rooms(s);
            Rooms(Step(s, Yielded(ret))) ==
            [Room(rooms[1].used - SAVED, rooms[1].size)] + rooms[2..] + [Room(rooms[0].used + CALL_WORDS, rooms[0].size)]
  {
    RotationOf(s, ret);
  }

  lemma RoomsWork(s: State, regs: Regs, stack: seq<Word>)
    requires WellFormed(s)
    ensures Rooms(Step(s, Worked(regs, stack))) == [Room(|stack|, Rooms(s)[0].size)] + Rooms(s)[1..]
  {
  }

  lemma RoomsStep(s: State, r: Request, e: Event)
    requires WellFormed(s) && Enabled(s, e) && Does(s, r, e) && CanServe(Rooms(s), r)
    ensures Rooms(Step(s, e)) == RoomsAfter(Rooms(s), r)
  {
    match e
    case Created(t) => RoomsCreate(s, t);
    case Yielded(ret) =>
      if |s.ring| > 1 {
        RoomsYield(s, ret);
      }
    case Worked(regs, stack) => RoomsWork(s, regs, stack);
  }

  // ----- running them

  lemma RoomsCanServe(s: S.Scheduler, r: Request)
    requires s.Valid() && CanServe(Rooms(s.state), r)
    ensures RecordAt(s.ram[..], s.state.ring, 0) && s.state.ring[0].lo <= s.state.ring[0].hi
    ensures r.Yield? && |s.state.ring| > 1 ==> s.HasRoom()
  {
    assert RecordAt(s.ram[..], s.state.ring, 0);
    assert Rooms(s.state)[0] == RoomOf(s.state.ring[0], |s.state.stack|);
  }

  method Serve(s: S.Scheduler, r: Request) returns (ok: bool, ghost e: Event)
    requires s.Valid() && CanServe(Rooms(s.state), r)
    modifies s.ram, s.heap, s
    ensures match HeapAfter(old(s.heap.blocks), [r]) case Panicked => !ok case Done(bs) => ok && s.heap.blocks == bs
    ensures !ok ==> r.Create?
    ensures ok ==>
              && s.Valid() && WellFormed(old(s.state)) && Enabled(old(s.state), e)
              && Does(old(s.state), r, e) && s.state == Step(old(s.state), e)
  {
    RoomsCanServe(s, r);
    assert [r][1..] == [];
    match r
    case Create(entry) =>
      var created;
      ghost var t;
      created, t := s.TaskCreate(entry);
      ok, e := created.Done?, Created(t);
    case Yield(ret) =>
      s.TaskYield(ret);
      ok, e := true, Yielded(ret);
    case Work(regs, drop, words) =>
      e := Worked(regs, words + s.state.stack[drop..]);
      s.Work(regs, drop, words);
      ok := true;
  }

  method ServeFirst(s: S.Scheduler, reqs: seq<Request>) returns (ok: bool, ghost e: Event)
    requires reqs != [] && s.Valid() && NoOverflow(Rooms(s.state), reqs)
    modifies s.ram, s.heap, s
    ensures match HeapAfter(old(s.heap.blocks), [reqs[0]]) case Panicked => !ok case Done(bs) => ok && s.heap.blocks == bs
    ensures !ok ==> reqs[0].Create?
    ensures ok ==>
              && s.Valid() && NoOverflow(Rooms(s.state), reqs[1..]) && WellFormed(old(s.state))
              && Enabled(old(s.state), e) && Does(old(s.state), reqs[0], e) && s.state == Step(old(s.state), e)
  {
    ghost var s0 := s.state;
    ok, e := Serve(s, reqs[0]);
    if ok {
      RoomsStep(s0, reqs[0], e);
    }
  }

  /**
   Any sequence of requests that overflows no stack.  The events are the ones asked for, memory and registers go through
   the model's run of them, and the only way to stop early is a create that the heap has no room for; `n` is the number
   of requests carried out.
   */
  method RunAll(s: S.Scheduler, reqs: seq<Request>) returns (n: nat, ghost es: seq<Event>)
    requires s.Valid() && NoOverflow(Rooms(s.state), reqs)
    modifies s.ram, s.heap, s
    ensures n <= |reqs| && WellFormed(old(s.state))
    ensures DoesAll(old(s.state), reqs[..n], es) && EnabledRun(old(s.state), es)
    ensures n < |reqs| ==> reqs[n].Create?
    ensures n == |reqs| ==> s.Valid() && s.state == Run(old(s.state), es)
    ensures match HeapAfter(old(s.heap.blocks), reqs)
            case Panicked => n < |reqs|
            case Done(bs) => n == |reqs| && s.heap.blocks == bs
    decreases reqs
  {
    n, es := 0, [];
    ghost var s0 := s.state;
    HoldsWellFormed(s.ram[..], s.esp, s0);
    if reqs == [] {
      return;
    }
    HeapFirst(s.heap.blocks, reqs);
    var ok;
    ghost var e;
    ok, e := ServeFirst(s, reqs);
    if ok {
      assert s.Valid();
      var m;
      ghost var rest;
      m, rest := RunAll(s, reqs[1..]);
      n, es := m + 1, [e] + rest;
      RunFirst(s0, reqs, e, m, rest);
    }
  }

  lemma RunFirst(s: State, reqs: seq<Request>, e: Event, m: nat, rest: seq<Event>)
    requires reqs != [] && m <= |reqs| - 1 && WellFormed(s) && Enabled(s, e) && Does(s, reqs[0], e)
    requires WellFormed(Step(s, e)) && DoesAll(Step(s, e), reqs[1..][..m], rest) && EnabledRun(Step(s, e), rest)
    ensures DoesAll(s, reqs[..m + 1], [e] + rest)
    ensures EnabledRun(s, [e] + rest) && Run(s, [e] + rest) == Run(Step(s, e), rest)
  {
    assert reqs[..m + 1][1..] == reqs[1..][..m] && ([e] + rest)[1..] == rest;
    StepWellFormed(s, e);
  }

  lemma HeapFirst(bs: seq<Block>, reqs: seq<Request>)
    requires reqs != []
    ensures HeapAfter(bs, reqs) ==
            match HeapAfter(bs, [reqs[0]]) case Panicked => Panicked case Done(cs) => HeapAfter(cs, reqs[1..])
  {
    assert [reqs[0]][1..] == [];
  }

  // ----- context preservation, in memory and registers

  function Moves(reqs: seq<Request>): int {
    if reqs == [] then 0 else (match reqs[0] case Create(_) => -1 case Yield(_) => 1 case Work(_, _, _) => 0) + Moves(reqs[1..])
  }

  /** The requests end at the moment when the task at place `i` of the ring runs again. */
  ghost predicate UntilTurn(reqs: seq<Request>, i: nat) {
    Moves(reqs) == i && forall j :: 0 <= j < |reqs| ==> Moves(reqs[..j]) < i
  }

  /** They do not reach that moment. */
  ghost predicate BeforeTurn(reqs: seq<Request>, i: nat) {
    forall j :: 0 <= j <= |reqs| ==> Moves(reqs[..j]) < i
  }

  lemma {:induction false} MovesAreAdvances(s: State, reqs: seq<Request>, es: seq<Event>, j: nat)
    requires WellFormed(s) && DoesAll(s, reqs, es) && j <= |reqs| == |es|
    ensures Advances(es[..j]) == Moves(reqs[..j])
    decreases reqs
  {
    if j > 0 {
      MovesAreAdvances(Step(s, es[0]), reqs[1..], es[1..], j - 1);
      assert es[..j][1..] == es[1..][..j - 1] && reqs[..j][1..] == reqs[1..][..j - 1];
    }
  }

  lemma TurnAt(s: State, reqs: seq<Request>, es: seq<Event>, i: nat)
    requires WellFormed(s) && DoesAll(s, reqs, es) && 0 < i < |s.ring|
    ensures EnabledRun(s, es)
    ensures UntilTurn(reqs, i) ==> Resumed(Run(s, es), s.ring[i])
    ensures BeforeTurn(reqs, i) ==> exists p :: Suspended(Run(s, es), p, s.ring[i])
  {
    DoneIsEnabled(s, reqs, es);
    var k := ContextPreserved(s, es, i);
    forall j | 0 <= j <= |es| ensures Advances(es[..j]) == Moves(reqs[..j]) {
      MovesAreAdvances(s, reqs, es, j);
    }
    assert es[..|es|] == es && reqs[..|reqs|] == reqs;
  }

  /** Memory still holds what a suspended task saved: its stack pointer and everything from there up. */
  ghost predicate Keeps(before: Memory, now: Memory, t: Task) {
    && |now| == |before| && t.node < |before| && t.hi <= |before| && now[t.node] == before[t.node]
    && forall k :: before[t.node] / 4 <= k < t.hi ==> now[k] == before[k]
  }

  /** The processor runs with what the task had saved: five words popped into registers, the rest its stack. */
  ghost predicate RunsWith(s: S.Scheduler, before: Memory, t: Task)
    reads s, s.ram
  {
    && |before| == s.ram.Length && t.node < |before| && t.hi <= |before|
    && var top := before[t.node] / 4;
       && before[t.node] % 4 == 0 && top + SAVED <= t.hi
       && Regs(s.ebx, s.esi, s.edi, s.ebp, s.eip) == Restored(before[top..top + SAVED])
       && s.esp == 4 * (top + SAVED) && s.currentTask == 4 * t.node
       && forall k :: top + SAVED <= k < t.hi ==> s.ram[k] == before[k]
  }

  lemma RestoredFrom(now: Memory, t: Task)
    requires ImageAt(now, t)
    ensures var top := now[t.node] / 4; top + |t.image| == t.hi && Restored(now[top..top + SAVED]) == Restored(t.image)
  {
    var top := t.hi - |t.image|;
    assert now[t.node] == 4 * top;
    assert forall k :: 0 <= k < SAVED ==> now[top + k] == t.image[k];
  }

  lemma ImagesAgree(before: Memory, now: Memory, t: Task)
    requires ImageAt(before, t) && ImageAt(now, t) && |before| == |now|
    ensures Keeps(before, now, t)
  {
    var top := t.hi - |t.image|;
    assert before[t.node] == 4 * top;
    forall k | top <= k < t.hi ensures now[k] == before[k] {
      assert before[top + (k - top)] == t.image[k - top];
      assert now[top + (k - top)] == t.image[k - top];
    }
  }

  lemma ResumedRunsWith(s: S.Scheduler, before: Memory, t: Task)
    requires s.Valid() && Resumed(s.state, t) && ImageAt(before, t) && |before| == s.ram.Length
    ensures RunsWith(s, before, t)
  {
    RestoredFrom(before, t);
    assert OnStack(s.ram[..], t.lo, t.hi, s.state.stack);
    StackFrom(before, s.ram[..], t);
  }

  lemma StackFrom(before: Memory, now: Memory, t: Task)
    requires ImageAt(before, t) && OnStack(now, t.lo, t.hi, t.image[SAVED..])
    ensures var top := before[t.node] / 4;
            && before[t.node] == 4 * top && top + SAVED <= t.hi && t.hi - |t.image[SAVED..]| == top + SAVED
            && forall k :: top + SAVED <= k < t.hi ==> now[k] == before[k]
  {
    var top, stack := t.hi - |t.image|, t.image[SAVED..];
    assert before[t.node] == 4 * top;
    forall k | top + SAVED <= k < t.hi ensures now[k] == before[k] {
      var j := k - (top + SAVED);
      assert now[t.hi - |stack| + j] == stack[j];
      assert before[top + (j + SAVED)] == t.image[j + SAVED];
    }
  }

  /**
   Whatever the tasks do, one that is not running finds, at the moment it runs again, the registers, return address and
   stack that memory held for it at the start; up to that moment memory keeps them.
   */
  method RunAround(s: S.Scheduler, reqs: seq<Request>, ghost i: nat) returns (n: nat, ghost es: seq<Event>)
    requires s.Valid() && NoOverflow(Rooms(s.state), reqs) && 0 < i < |s.state.ring|
    modifies s.ram, s.heap, s
    ensures n <= |reqs| && (n < |reqs| ==> HeapAfter(old(s.heap.blocks), reqs) == Panicked)
    ensures n == |reqs| ==> s.Valid()
    ensures n == |reqs| && UntilTurn(reqs, i) ==> RunsWith(s, old(s.ram[..]), old(s.state.ring[i]))
    ensures n == |reqs| && BeforeTurn(reqs, i) ==> Keeps(old(s.ram[..]), s.ram[..], old(s.state.ring[i]))
  {
    ghost var before, s0 := s.ram[..], s.state;
    ghost var t := s0.ring[i];
    assert ImageAt(before, t);
    n, es := RunAll(s, reqs);
    assert reqs[..|reqs|] == reqs;
    if n == |reqs| {
      TurnAt(s0, reqs, es, i);
      if UntilTurn(reqs, i) {
        ResumedRunsWith(s, before, t);
      }
      if BeforeTurn(reqs, i) {
        ghost var p :| Suspended(s.state, p, t);
        assert ImageAt(s.ram[..], s.state.ring[p]);
        ImagesAgree(before, s.ram[..], t);
      }
    }
  }

  /** The same up to the moment when the task at place `i` runs. */
  method RunToTurn(s: S.Scheduler, reqs: seq<Request>, ghost i: nat, ghost t: Task) returns (n: nat)
    requires s.Valid() && NoOverflow(Rooms(s.state), reqs) && UntilTurn(reqs, i)
    requires 0 < i < |s.state.ring| && t == s.state.ring[i]
    modifies s.ram, s.heap, s
    ensures n <= |reqs| && (n < |reqs| ==> HeapAfter(old(s.heap.blocks), reqs) == Panicked)
    ensures n == |reqs| ==> s.Valid() && RunsWith(s, old(s.ram[..]), t)
  {
    ghost var es;
    n, es := RunAround(s, reqs, i);
  }

  /**
   The processor is back in the task whose structure is at `current`: with registers `regs`, the stack below `hi` as in
   `before` from address `sp` up, and the two arguments of context_switch still to be dropped.
   */
  ghost predicate BackTo(s: S.Scheduler, current: Word, before: Memory, sp: Word, regs: Regs, hi: nat)
    reads s, s.ram
  {
    && s.currentTask == current && s.esp == sp - 8 && Regs(s.ebx, s.esi, s.edi, s.ebp, s.eip) == regs
    && hi <= |before| == s.ram.Length && forall k :: sp <= 4 * k < 4 * hi ==> s.ram[k] == before[k]
  }

  /**
   A yield and whatever follows until the caller's next turn: to the caller it is a call that returns to `ret` with ebx,
   esi, edi and ebp and its stack as they were.
   */
  method YieldReturns(s: S.Scheduler, ret: Word, reqs: seq<Request>) returns (n: nat)
    requires s.Valid() && |s.state.ring| > 1 && NoOverflow(Rooms(s.state), [Yield(ret)] + reqs)
    requires UntilTurn(reqs, |s.state.ring| - 1)
    modifies s.ram, s.heap, s
    ensures n <= |reqs| && (n < |reqs| ==> HeapAfter(old(s.heap.blocks), reqs) == Panicked)
    ensures n == |reqs| ==>
              s.Valid() && BackTo(s, old(4 * s.state.ring[0].node), old(s.ram[..]), old(s.esp),
                                  Regs(old(s.ebx), old(s.esi), old(s.edi), old(s.ebp), ret), old(s.state.ring[0].hi))
  {
    ghost var m, head, before, sp := |s.state.ring| - 1, s.state.ring[0], s.ram[..], s.esp;
    ghost var regs := Regs(s.ebx, s.esi, s.edi, s.ebp, ret);
    ghost var t := YieldSaves(s, ret, reqs);
    ghost var middle := s.ram[..];
    assert s.Valid();
    n := RunToTurn(s, reqs, m, t);
    if n == |reqs| {
      BackAgain(s, before, middle, sp, regs, ret, t, head);
    }
  }

  lemma BackAgain(s: S.Scheduler, before: Memory, middle: Memory, sp: Word, regs: Regs, ret: Word, t: Task, head: Task)
    requires Left(before, middle, sp, regs, ret, t) && RunsWith(s, middle, t) && SamePlace(t, head) && 4 * t.node < WORD_LIMIT
    ensures BackTo(s, 4 * head.node, before, sp, regs.(eip := ret), head.hi)
  {
  }

  /** In memory `now`, task `t` has saved `regs` with return address `ret`, and its stack from `sp` up is as it was. */
  ghost predicate Left(before: Memory, now: Memory, sp: Word, regs: Regs, ret: Word, t: Task) {
    && t.node < |now| == |before| && t.hi <= |now|
    && now[t.node] == sp - 28 && now[t.node] % 4 == 0 && now[t.node] / 4 + SAVED <= t.hi
    && Restored(now[now[t.node] / 4..now[t.node] / 4 + SAVED]) == regs.(eip := ret)
    && forall k :: sp <= 4 * k < 4 * t.hi ==> now[k] == before[k]
  }

  /** The yield alone: its caller's registers and stack are in memory, and it is last in the ring. */
  method YieldSaves(s: S.Scheduler, ret: Word, ghost reqs: seq<Request>) returns (ghost t: Task)
    requires s.Valid() && |s.state.ring| > 1 && NoOverflow(Rooms(s.state), [Yield(ret)] + reqs)
    modifies s.ram, s
    ensures s.Valid() && |s.state.ring| == old(|s.state.ring|) && t == s.state.ring[|s.state.ring| - 1]
    ensures SamePlace(t, old(s.state.ring[0])) && 4 * t.node < WORD_LIMIT && NoOverflow(Rooms(s.state), reqs)
    ensures Left(old(s.ram[..]), s.ram[..], old(s.esp), old(s.state.regs), ret, t)
  {
    ghost var before, s0, sp := s.ram[..], s.state, s.esp;
    RoomsCanServe(s, Yield(ret));
    HoldsWellFormed(before, sp, s0);
    s.TaskYield(ret);
    t := YieldSaved(before, s.ram[..], sp, s.esp, s0, ret);
    RoomsAfterYield(s0, ret, reqs);
  }

  lemma RoomsAfterYield(s: State, ret: Word, reqs: seq<Request>)
    requires WellFormed(s) && Enabled(s, Yielded(ret)) && NoOverflow(Rooms(s), [Yield(ret)] + reqs)
    ensures NoOverflow(Rooms(Step(s, Yielded(ret))), reqs)
  {
    assert ([Yield(ret)] + reqs)[1..] == reqs;
    RoomsStep(s, Yield(ret), Yielded(ret));
  }

  lemma YieldSaved(before: Memory, now: Memory, sp: Word, nowSp: Word, s: State, ret: Word) returns (t: Task)
    requires Holds(before, sp, s) && |s.ring| > 1 && WellFormed(s) && Enabled(s, Yielded(ret))
    requires Holds(now, nowSp, Step(s, Yielded(ret))) && |now| == |before|
    ensures var r := Step(s, Yielded(ret)).ring; |r| == |s.ring| && t == r[|r| - 1]
    ensures SamePlace(t, s.ring[0]) && Left(before, now, sp, s.regs, ret, t)
  {
    RotationOf(s, ret);
    var r := Step(s, Yielded(ret)).ring;
    t := r[|r| - 1];
    assert ImageAt(now, r[|r| - 1]);
    SavedInMemory(before, now, sp, s, ret, t);
  }

  /** Where the image that a yield leaves lies, word by word. */
  lemma SavedInMemory(before: Memory, now: Memory, sp: Word, s: State, ret: Word, t: Task)
    requires Holds(before, sp, s) && |s.ring| > 1 && ImageAt(now, t) && |now| == |before|
    requires 0 <= StackPointer(s.ring[1]) < WORD_LIMIT && 4 * s.ring[0].node < WORD_LIMIT
    requires SamePlace(t, s.ring[0])
    requires t.image == Saved(s.regs, ret, 4 * s.ring[0].node, StackPointer(s.ring[1]), s.stack)
    ensures var top := now[t.node] / 4;
            && now[t.node] == sp - 28 && now[t.node] % 4 == 0 && top + SAVED <= t.hi
            && Restored(now[top..top + SAVED]) == s.regs.(eip := ret)
            && forall k :: sp <= 4 * k < 4 * t.hi ==> now[k] == before[k]
  {
    var top := t.hi - |t.image|;
    RestoredFrom(now, t);
    assert Restored(t.image) == s.regs.(eip := ret);
    forall k | sp <= 4 * k < 4 * t.hi ensures now[k] == before[k] {
      var j := k - (t.hi - |s.stack|);
      assert before[t.hi - |s.stack| + j] == s.stack[j];
      assert now[top + (j + 7)] == t.image[j + 7];
    }
  }

  /** What task_create leaves in memory for the new task. */
  ghost predicate Prepared(now: Memory, t: Task, entry: Word) {
    && t.node < |now| && t.hi <= |now| && now[t.node] == 4 * (t.hi - SAVED) && SAVED <= t.hi
    && Restored(now[t.hi - SAVED..t.hi]) == Regs(0, 0, 0, 0, entry)
  }

  /** The create alone: the new task is next in the ring. */
  method CreatePrepares(s: S.Scheduler, entry: Word, ghost reqs: seq<Request>) returns (r: Outcome<Word>, ghost t: Task)
    requires s.Valid() && NoOverflow(Rooms(s.state), [Create(entry)] + reqs)
    modifies s.ram, s.heap, s
    ensures match S.Scheduler.CreateStep(old(s.heap.blocks))
            case Panicked => r == Panicked
            case Done(bs) => r.Done? && s.heap.blocks == bs
    ensures r.Done? ==>
              && s.Valid() && NoOverflow(Rooms(s.state), reqs) && |s.state.ring| > 1 && s.state.ring[1] == t
              && Prepared(s.ram[..], t, entry) && t.pid == old(s.nextPid) && S.Scheduler.OwnStack(t)
  {
    ghost var s0 := s.state;
    assert ([Create(entry)] + reqs)[1..] == reqs;
    r, t := s.TaskCreate(entry);
    if r.Done? {
      RoomsStep(s0, Create(entry), Created(t));
      assert ImageAt(s.ram[..], s.state.ring[1]);
      InitialInMemory(s.ram[..], t, entry);
    }
  }

  /** Task `t` runs at its entry, with four zero registers and nothing on its stack. */
  ghost predicate Started(s: S.Scheduler, t: Task, entry: Word)
    reads s
  {
    && Regs(s.ebx, s.esi, s.edi, s.ebp, s.eip) == Regs(0, 0, 0, 0, entry)
    && s.currentTask == 4 * t.node && s.esp == 4 * t.hi
  }

  lemma PreparedStarts(s: S.Scheduler, middle: Memory, t: Task, entry: Word)
    requires Prepared(middle, t, entry) && RunsWith(s, middle, t)
    ensures Started(s, t, entry)
  {
  }

  lemma HeapCreate(bs: seq<Block>, entry: Word, reqs: seq<Request>)
    ensures HeapAfter(bs, [Create(entry)] + reqs) ==
            match S.Scheduler.CreateStep(bs) case Panicked => Panicked case Done(cs) => HeapAfter(cs, reqs)
  {
    assert ([Create(entry)] + reqs)[1..] == reqs;
  }

  /** A new task's first turn: the entry point, four zero registers, and an empty stack of its own. */
  method CreateStarts(s: S.Scheduler, entry: Word, reqs: seq<Request>) returns (n: nat, ghost t: Task)
    requires s.Valid() && NoOverflow(Rooms(s.state), [Create(entry)] + reqs) && UntilTurn(reqs, 1)
    modifies s.ram, s.heap, s
    ensures n <= |reqs| + 1
    ensures n < |reqs| + 1 ==> HeapAfter(old(s.heap.blocks), [Create(entry)] + reqs) == Panicked
    ensures n == |reqs| + 1 ==>
              s.Valid() && Started(s, t, entry) && t.pid == old(s.nextPid) && S.Scheduler.OwnStack(t)
  {
    HeapCreate(s.heap.blocks, entry, reqs);
    var r;
    r, t := CreatePrepares(s, entry, reqs);
    n := 0;
    if r.Done? {
      ghost var middle := s.ram[..];
      assert s.Valid();
      var m := RunToTurn(s, reqs, 1, t);
      n := m + 1;
      if m == |reqs| {
        PreparedStarts(s, middle, t, entry);
      }
    }
  }

  lemma InitialInMemory(now: Memory, t: Task, entry: Word)
    requires ImageAt(now, t) && t.image == InitialImage(entry)
    ensures Prepared(now, t, entry)
  {
    RestoredFrom(now, t);
  }
}
