/**
 cpu/task.c and cpu/switch.asm: tasks created on the heap and switched by saving registers on their stacks, on a
 processor with the registers that context_switch touches.
 */
module Scheduler {
  import opened Words
  import opened HeapModel
  import HeapRuns
  import HeapMemory
  import Heap
  import opened TaskModel
  import opened TaskMemory

  const RECORD_SIZE: Word := 16
  const TASK_STACK_SIZE: Word := 4096

  class Scheduler {
    const ram: array<Word>
    const heap: Heap.Heap
    var eax: Word
    var ebx: Word
    var esi: Word
    var edi: Word
    var ebp: Word
    var esp: Word
    var eip: Word
    var currentTask: Word
    var nextPid: Word
    ghost var state: State

    /** Where a task's structure and stack lie: in live allocations, or for main's stack outside the heap. */
    ghost predicate Backed(t: Task)
      reads heap
    {
      && 4 * t.node == heap.heapStart + t.record.offset + HEADER_SIZE
      && t.record in Live(heap.blocks) && t.record.size >= RECORD_SIZE
      && match t.home
         case None => 4 * t.hi <= heap.heapStart || heap.heapStart + HEAP_MAX_SIZE <= 4 * t.lo
         case Some(x) =>
           && 4 * t.lo == heap.heapStart + x.offset + HEADER_SIZE && t.hi == t.lo + STACK_WORDS
           && x in Live(heap.blocks) && x.size >= TASK_STACK_SIZE
    }

    /** The heap's own invariant, for a memory with contents `mem`. */
    ghost predicate HeapOn(mem: Memory)
      reads heap
    {
      && HeapMemory.Placed(mem, heap.heapStart) && HeapModel.Valid(heap.blocks)
      && HeapMemory.Represents(mem, heap.heapStart, heap.blocks) && heap.heapUsed == LiveBytes(heap.blocks)
    }

    /** A memory with contents `mem`, the heap and the registers agree with the abstract state. */
    ghost predicate SoundOn(mem: Memory)
      reads this, heap
    {
      && heap.ram == ram && HeapOn(mem)
      && Holds(mem, esp, state)
      && state.regs == Regs(ebx, esi, edi, ebp, eip)
      && currentTask == 4 * state.ring[0].node
      && (forall i :: 0 <= i < |state.ring| ==> Backed(state.ring[i]))
    }

    ghost predicate Sound()
      reads this, ram, heap
    {
      SoundOn(ram[..])
    }

    ghost predicate Valid()
      reads this, ram, heap
    {
      Sound() && DistinctPids(state.ring) && nextPid == |state.ring|
    }

    lemma TaskOffHeaders(t: Task)
      requires heap.ram == ram && heap.Valid() && Backed(t)
      ensures forall k: nat :: Belongs(t, k) ==> !HeapMemory.HeaderWord(heap.heapStart, heap.blocks, k)
    {
      forall k: nat | Belongs(t, k) ensures !HeapMemory.HeaderWord(heap.heapStart, heap.blocks, k) {
        BackedNotHeader(t, k);
      }
    }

    /** The processor before task_init: registers and stack pointer as given, no tasks. */
    constructor (heap: Heap.Heap, regs: Regs, esp: Word)
      ensures this.heap == heap && this.ram == heap.ram
      ensures Regs(ebx, esi, edi, ebp, eip) == regs && this.esp == esp && currentTask == 0 && nextPid == 1
    {
      this.heap := heap;
      this.ram := heap.ram;
      ebx, esi, edi, ebp, eip := regs.ebx, regs.esi, regs.edi, regs.ebp, regs.eip;
      this.eax, this.esp := 0, esp;
      currentTask, nextPid := 0, 1;
      state := State([], regs, []);
    }

    lemma BackedNotHeader(t: Task, k: nat)
      requires heap.ram == ram && heap.Valid() && Backed(t) && Belongs(t, k)
      ensures !HeapMemory.HeaderWord(heap.heapStart, heap.blocks, k)
    {
      if t.node <= k < t.node + RECORD_WORDS {
        HeapMemory.PayloadNotHeader(heap.heapStart, heap.blocks, t.record, k);
      } else if t.home.Some? {
        HeapMemory.PayloadNotHeader(heap.heapStart, heap.blocks, t.home.value, k);
      } else if HeapMemory.HeaderWord(heap.heapStart, heap.blocks, k) {
        HeapMemory.HeaderInHeap(heap.heapStart, heap.blocks, k);
      }
    }

    // ----- the instructions of switch.asm

    /** `push` */
    method Push(v: Word)
      requires esp % 4 == 0 && 4 <= esp && esp / 4 <= ram.Length
      modifies ram, this`esp
      ensures esp == old(esp) - 4 && ram[..] == old(ram[..])[esp / 4 := v]
    {
      esp := esp - 4;
      ram[esp / 4] := v;
    }

    /** `pop` */
    method Pop() returns (v: Word)
      requires esp % 4 == 0 && esp / 4 < ram.Length && esp + 4 < WORD_LIMIT
      modifies this`esp
      ensures esp == old(esp) + 4 && v == ram[old(esp) / 4]
    {
      v := ram[esp / 4];
      esp := esp + 4;
    }

    /** switch.asm up to the load of the new stack pointer. */
    method SaveContext()
      requires esp % 4 == 0 && 16 <= esp && esp / 4 + 3 <= ram.Length
      requires var sp, ptr := esp / 4, ram[esp / 4 + 1];
               ptr % 4 == 0 && ptr / 4 < ram.Length && !(sp - 4 <= ptr / 4 < sp + 3)
      modifies ram, this`eax, this`esp
      ensures var sp, ptr := old(esp / 4), old(ram[esp / 4 + 1]);
              && esp == old(ram[esp / 4 + 2])
              && ram[..] == old(ram[..])[sp - 1 := ebx][sp - 2 := esi][sp - 3 := edi][sp - 4 := ebp][ptr / 4 := 4 * (sp - 4)]
    {
      Push(ebx);
      Push(esi);
      Push(edi);
      Push(ebp);
      eax := ram[(esp + 20) / 4];
      ram[eax / 4] := esp;
      esp := ram[(esp + 24) / 4];
    }

    /** switch.asm from the first `pop` to `ret`. */
    method RestoreContext()
      requires esp % 4 == 0 && esp / 4 + SAVED <= ram.Length && 4 * ram.Length < WORD_LIMIT
      modifies this`ebx, this`esi, this`edi, this`ebp, this`esp, this`eip
      ensures Regs(ebx, esi, edi, ebp, eip) == Restored(ram[old(esp) / 4..old(esp) / 4 + SAVED])
      ensures esp == old(esp) + 4 * SAVED
    {
      ebp := Pop();
      edi := Pop();
      esi := Pop();
      ebx := Pop();
      eip := Pop();   // ret
    }

    /** context_switch, entered with the return address, `old_esp_ptr` and `new_esp` on the stack. */
    method ContextSwitch()
      requires esp % 4 == 0 && 16 <= esp && esp / 4 + 3 <= ram.Length && 4 * ram.Length < WORD_LIMIT
      requires var sp, ptr, to := esp / 4, ram[esp / 4 + 1], ram[esp / 4 + 2];
               && ptr % 4 == 0 && ptr / 4 < ram.Length && !(sp - 4 <= ptr / 4 < sp + 3)
               && to % 4 == 0 && to / 4 + SAVED <= ram.Length
               && Disjoint(sp - 4, sp, to / 4, to / 4 + SAVED) && !(to / 4 <= ptr / 4 < to / 4 + SAVED)
      modifies ram, this`eax, this`ebx, this`esi, this`edi, this`ebp, this`esp, this`eip
      ensures var sp, ptr, to := old(esp / 4), old(ram[esp / 4 + 1]), old(ram[esp / 4 + 2]);
              && ram[..] == old(ram[..])[sp - 1 := old(ebx)][sp - 2 := old(esi)][sp - 3 := old(edi)][sp - 4 := old(ebp)]
                                         [ptr / 4 := 4 * (sp - 4)]
              && Regs(ebx, esi, edi, ebp, eip) == Restored(old(ram[to / 4..to / 4 + SAVED]))
              && esp == to + 4 * SAVED
    {
      ghost var to := ram[esp / 4 + 2];
      SaveContext();
      assert ram[to / 4..to / 4 + SAVED] == old(ram[to / 4..to / 4 + SAVED]);
      RestoreContext();
    }

    // ----- task.c

    /** What a switch relies on: the two tasks at the head of the ring, their structures and their stacks. */
    ghost predicate CanSwitch()
      reads this, ram
    {
      && |state.ring| > 1
      && var t, u := state.ring[0], state.ring[1];
         var top := t.hi - |state.stack|;
         && t.lo + 7 <= top <= t.hi <= ram.Length && esp == 4 * top && 4 * ram.Length < WORD_LIMIT
         && t.node + RECORD_WORDS <= ram.Length && u.node + RECORD_WORDS <= ram.Length
         && Disjoint(t.node, t.node + RECORD_WORDS, u.node, u.node + RECORD_WORDS)
         && Disjoint(t.node, t.node + RECORD_WORDS, t.lo, t.hi) && Disjoint(u.node, u.node + RECORD_WORDS, t.lo, t.hi)
         && Disjoint(t.node, t.node + RECORD_WORDS, u.lo, u.hi) && Disjoint(u.node, u.node + RECORD_WORDS, u.lo, u.hi)
         && Disjoint(t.lo, t.hi, u.lo, u.hi)
         && currentTask == 4 * t.node && ram[t.node + 3] == 4 * u.node
         && ram[u.node] == StackPointer(u) && u.lo <= u.hi - |u.image| && SAVED <= |u.image| && u.hi <= ram.Length
    }

    /** The running task has stack left for task_yield's call: three words for the call, four for the registers. */
    ghost predicate HasRoom()
      reads this
    {
      state.ring != [] && |state.stack| + 7 <= state.ring[0].hi - state.ring[0].lo
    }

    lemma Heads()
      requires Sound() && HasRoom() && |state.ring| > 1
      ensures CanSwitch() && 0 < state.ring[1].node != state.ring[0].node
    {
      HeadWords();
      var t, u := state.ring[0], state.ring[1];
      assert Disjoint(t.node, t.node + RECORD_WORDS, u.node, u.node + RECORD_WORDS) && Disjoint(t.lo, t.hi, u.lo, u.hi);
      assert Disjoint(t.node, t.node + RECORD_WORDS, t.lo, t.hi) && Disjoint(u.node, u.node + RECORD_WORDS, u.lo, u.hi);
      assert Disjoint(t.node, t.node + RECORD_WORDS, u.lo, u.hi) && Disjoint(u.node, u.node + RECORD_WORDS, t.lo, t.hi);
    }

    /** What the structures of the two tasks at the head of the ring hold, and the next task's image. */
    lemma HeadWords()
      requires Sound() && |state.ring| > 1
      ensures RecordAt(ram[..], state.ring, 0) && RecordAt(ram[..], state.ring, 1) && ImageAt(ram[..], state.ring[1])
      ensures var t, u := state.ring[0], state.ring[1];
              && t.node + RECORD_WORDS <= ram.Length && u.node + RECORD_WORDS <= ram.Length && 0 < u.node
              && ram[t.node + 3] == 4 * u.node && ram[u.node] == StackPointer(u)
    {
      assert RecordAt(ram[..], state.ring, 0) && RecordAt(ram[..], state.ring, 1) && ImageAt(ram[..], state.ring[1]);
    }

    /** The words a switch writes belong to the two tasks at the head of the ring, so none is a header word. */
    lemma WritesOffHeaders()
      requires Sound() && HasRoom() && |state.ring| > 1
      ensures forall k: nat :: YieldWrites(state, k) ==> !HeapMemory.HeaderWord(heap.heapStart, heap.blocks, k)
    {
      Heads();
      TaskOffHeaders(state.ring[0]);
      TaskOffHeaders(state.ring[1]);
      forall k: nat | YieldWrites(state, k) ensures Belongs(state.ring[0], k) || Belongs(state.ring[1], k) {
      }
    }

    /** The call `context_switch(oldPtr, newEsp)`: arguments, then the return address, then the routine. */
    method CallContextSwitch(oldPtr: Word, newEsp: Word, ret: Word)
      requires esp % 4 == 0 && 28 <= esp && esp / 4 <= ram.Length && 4 * ram.Length < WORD_LIMIT
      requires oldPtr % 4 == 0 && oldPtr / 4 < ram.Length && !(esp / 4 - 7 <= oldPtr / 4 < esp / 4)
      requires newEsp % 4 == 0 && newEsp / 4 + SAVED <= ram.Length
      requires Disjoint(esp / 4 - 7, esp / 4, newEsp / 4, newEsp / 4 + SAVED)
      requires !(newEsp / 4 <= oldPtr / 4 < newEsp / 4 + SAVED)
      modifies ram, this`eax, this`ebx, this`esi, this`edi, this`ebp, this`esp, this`eip
      ensures var top := old(esp / 4);
              && (forall k: nat :: k < ram.Length && k != oldPtr / 4 && !(top - 7 <= k < top) ==> ram[k] == old(ram[k]))
              && ram[oldPtr / 4] == 4 * (top - 7)
              && ram[top - 1] == newEsp && ram[top - 2] == oldPtr && ram[top - 3] == ret
              && ram[top - 4] == old(ebx) && ram[top - 5] == old(esi) && ram[top - 6] == old(edi) && ram[top - 7] == old(ebp)
      ensures Regs(ebx, esi, edi, ebp, eip) == Restored(old(ram[newEsp / 4..newEsp / 4 + SAVED]))
      ensures esp == newEsp + 4 * SAVED
    {
      ghost var to := newEsp / 4;
      PushCall(newEsp, oldPtr, ret);
      assert forall k :: to <= k < to + SAVED ==> ram[k] == old(ram[k]);
      assert ram[to..to + SAVED] == old(ram[to..to + SAVED]);
      ContextSwitch();
    }

    method PushCall(second: Word, first: Word, ret: Word)
      requires esp % 4 == 0 && 12 <= esp && esp / 4 <= ram.Length
      modifies ram, this`esp
      ensures var top := old(esp / 4);
              && esp == 4 * (top - 3) && ram[top - 1] == second && ram[top - 2] == first && ram[top - 3] == ret
              && forall k: nat :: k < ram.Length && !(top - 3 <= k < top) ==> ram[k] == old(ram[k])
    {
      Push(second);
      Push(first);
      Push(ret);
    }

    /**
     The state bytes and the current pointer; `t` and `u` are the structures of the running and the next task, `to` where
     the next task's image begins.
     */
    method MarkStates(ghost t: nat, ghost u: nat, ghost to: nat) returns (previous: Word, next: Word)
      requires t + RECORD_WORDS <= ram.Length && u + RECORD_WORDS <= ram.Length
      requires Disjoint(t, t + RECORD_WORDS, u, u + RECORD_WORDS)
      requires currentTask == 4 * t && ram[t + 3] == 4 * u && to + SAVED <= ram.Length
      requires Disjoint(t, t + RECORD_WORDS, to, to + SAVED) && Disjoint(u, u + RECORD_WORDS, to, to + SAVED)
      modifies ram, this`currentTask
      ensures ram[to..to + SAVED] == old(ram[to..to + SAVED])
      ensures previous == 4 * t && next == 4 * u && currentTask == next
      ensures forall k: nat :: k < ram.Length && k != t + 2 && k != u + 2 ==> ram[k] == old(ram[k])
      ensures ram[t + 2] == WithByte(old(ram[t + 2]), TASK_READY)
      ensures ram[u + 2] == WithByte(old(ram[u + 2]), TASK_RUNNING)
    {
      previous := currentTask;
      next := ram[previous / 4 + 3];
      ram[previous / 4 + 2] := WithByte(ram[previous / 4 + 2], TASK_READY);
      ram[next / 4 + 2] := WithByte(ram[next / 4 + 2], TASK_RUNNING);
      currentTask := next;
    }

    /**
     The part of task_yield that switches; `ret` is the return address of its call to context_switch, `top` and `to`
     where the running task's stack ends and the next task's image begins.
     */
    method Switch(ret: Word, ghost t: nat, ghost u: nat, ghost top: nat, ghost to: nat)
      requires t + RECORD_WORDS <= ram.Length && u + RECORD_WORDS <= ram.Length
      requires Disjoint(t, t + RECORD_WORDS, u, u + RECORD_WORDS)
      requires currentTask == 4 * t && ram[t + 3] == 4 * u && ram[u] == 4 * to
      requires esp == 4 * top && 7 <= top <= ram.Length && to + SAVED <= ram.Length && 4 * ram.Length < WORD_LIMIT
      requires Disjoint(t, t + RECORD_WORDS, top - 7, top) && Disjoint(u, u + RECORD_WORDS, top - 7, top)
      requires Disjoint(t, t + RECORD_WORDS, to, to + SAVED) && Disjoint(u, u + RECORD_WORDS, to, to + SAVED)
      requires Disjoint(top - 7, top, to, to + SAVED)
      modifies ram, this`eax, this`ebx, this`esi, this`edi, this`ebp, this`esp, this`eip, this`currentTask
      ensures forall k: nat :: k < ram.Length && k != t && k != t + 2 && k != u + 2 && !(top - 7 <= k < top) ==>
                ram[k] == old(ram[k])
      ensures ram[t] == 4 * (top - 7)
      ensures ram[t + 2] == WithByte(old(ram[t + 2]), TASK_READY)
      ensures ram[u + 2] == WithByte(old(ram[u + 2]), TASK_RUNNING)
      ensures ram[top - 1] == 4 * to && ram[top - 2] == 4 * t && ram[top - 3] == ret
      ensures ram[top - 4] == old(ebx) && ram[top - 5] == old(esi) && ram[top - 6] == old(edi) && ram[top - 7] == old(ebp)
      ensures Regs(ebx, esi, edi, ebp, eip) == Restored(old(ram[to..to + SAVED])) && esp == 4 * (to + SAVED)
      ensures currentTask == 4 * u
    {
      var previous, next := MarkStates(t, u, to);
      CallContextSwitch(previous, ram[next / 4], ret);
    }

    /** The same, as a relation between the memories before and after. */
    method SwitchTasks(ret: Word)
      requires CanSwitch() && state.regs == Regs(ebx, esi, edi, ebp, eip)
      modifies ram, this`eax, this`ebx, this`esi, this`edi, this`ebp, this`esp, this`eip, this`currentTask
      ensures Yielding(old(ram[..]), ram[..], state, ret)
      ensures var to := state.ring[1].hi - |state.ring[1].image|;
              Regs(ebx, esi, edi, ebp, eip) == Restored(old(ram[to..to + SAVED])) && esp == 4 * (to + SAVED)
      ensures currentTask == 4 * state.ring[1].node
    {
      ghost var t, u := state.ring[0], state.ring[1];
      Switch(ret, t.node, u.node, t.hi - |state.stack|, u.hi - |u.image|);
    }

    /** The switch, from a sound state: what it writes, and the registers it loads. */
    method SwitchSound(ret: Word)
      requires Sound() && HasRoom() && |state.ring| > 1
      modifies ram, this`eax, this`ebx, this`esi, this`edi, this`ebp, this`esp, this`eip, this`currentTask
      ensures Yielding(old(ram[..]), ram[..], state, ret) && |state.ring[1].image| >= SAVED
      ensures Regs(ebx, esi, edi, ebp, eip) == Restored(state.ring[1].image)
      ensures esp == StackPointer(state.ring[1]) + 4 * SAVED && currentTask == 4 * state.ring[1].node
    {
      Heads();
      ImageWords(state.ring[1]);
      SwitchTasks(ret);
    }

    /** task_yield when there is another task. */
    method YieldToNext(ret: Word)
      requires Sound() && HasRoom() && |state.ring| > 1
      modifies ram, this`eax, this`ebx, this`esi, this`edi, this`ebp, this`esp, this`eip, this`currentTask, this`state
      ensures Sound() && WellFormed(old(state)) && Enabled(old(state), Yielded(ret))
      ensures state == Step(old(state), Yielded(ret))
    {
      ghost var before, s := ram[..], state;
      WritesOffHeaders();
      SwitchSound(ret);
      YieldDone(before, old(esp), s, ret);
      Adopt(Step(s, Yielded(ret)));
    }

    /** Takes `s` for the abstract state once memory, heap and registers agree with it. */
    ghost method Adopt(s: State)
      requires heap.ram == ram && heap.Valid() && Holds(ram[..], esp, s) && s.regs == Regs(ebx, esi, edi, ebp, eip)
      requires currentTask == 4 * s.ring[0].node && forall i :: 0 <= i < |s.ring| ==> Backed(s.ring[i])
      modifies this`state
      ensures Sound() && state == s
    {
      state := s;
    }

    /** task_yield, also before task_init and when there is no other task. */
    method TaskYield(ret: Word)
      requires currentTask != 0 ==> Valid() && (|state.ring| > 1 ==> HasRoom())
      modifies ram, this
      ensures old(currentTask) == 0 ==> unchanged(this) && unchanged(ram)
      ensures old(currentTask) != 0 ==>
                && Valid() && WellFormed(old(state)) && Enabled(old(state), Yielded(ret))
                && state == Step(old(state), Yielded(ret))
    {
      if currentTask == 0 {
        return;
      }
      YieldTask(ret);
    }

    /** task_yield once there is a running task: nothing happens when it is the only one. */
    method YieldTask(ret: Word)
      requires Valid() && (|state.ring| > 1 ==> HasRoom())
      modifies ram, this
      ensures Valid() && WellFormed(old(state)) && Enabled(old(state), Yielded(ret))
      ensures state == Step(old(state), Yielded(ret))
    {
      HoldsWellFormed(ram[..], esp, state);
      Alone();
      if ram[currentTask / 4 + 3] == currentTask {
        return;
      }
      ghost var s := state;
      YieldToNext(ret);
      RotationOf(s, ret);
      RotationPids(s.ring, state.ring);
    }

    lemma YieldDone(before: Memory, sp: Word, s: State, ret: Word)
      requires Holds(before, sp, s) && |s.ring| > 1 && Yielding(before, ram[..], s, ret)
      requires heap.ram == ram && HeapOn(before)
      requires forall k: nat :: YieldWrites(s, k) ==> !HeapMemory.HeaderWord(heap.heapStart, heap.blocks, k)
      requires forall i :: 0 <= i < |s.ring| ==> Backed(s.ring[i])
      ensures WellFormed(s) && Enabled(s, Yielded(ret))
      ensures 0 <= StackPointer(s.ring[1]) && StackPointer(s.ring[1]) + 4 * SAVED < WORD_LIMIT
      ensures heap.Valid() && Holds(ram[..], StackPointer(s.ring[1]) + 4 * SAVED, Step(s, Yielded(ret)))
      ensures var r := Step(s, Yielded(ret)).ring; forall i :: 0 <= i < |r| ==> Backed(r[i])
      ensures |s.ring[1].image| >= SAVED && Step(s, Yielded(ret)).regs == Restored(s.ring[1].image)
      ensures Step(s, Yielded(ret)).ring[0].node == s.ring[1].node
    {
      YieldHolds(before, ram[..], sp, s, ret);
      HeapMemory.RepresentsFrame(before, ram[..], heap.heapStart, heap.blocks);
      RotationOf(s, ret);
      RotationBacked(s.ring, Step(s, Yielded(ret)).ring);
    }

    lemma ImageWords(t: Task)
      requires ImageAt(ram[..], t)
      ensures var to := t.hi - |t.image|; Restored(ram[to..to + SAVED]) == Restored(t.image)
    {
      var to := t.hi - |t.image|;
      assert forall k :: 0 <= k < SAVED ==> ram[..][to + k] == t.image[k];
    }

    /** Rotating the ring keeps every task's memory. */
    lemma RotationBacked(ring: seq<Task>, r: seq<Task>)
      requires Rotation(ring, r) && forall i :: 0 <= i < |ring| ==> Backed(ring[i])
      ensures forall i :: 0 <= i < |r| ==> Backed(r[i])
    {
      forall i | 0 <= i < |r| ensures Backed(r[i]) {
        assert Backed(ring[Succ(i, |r|)]) && SamePlace(r[i], ring[Succ(i, |r|)]);
      }
    }

    /** The next task is the current one exactly when there is no other. */
    lemma Alone()
      requires Sound()
      ensures currentTask / 4 + 3 < ram.Length && currentTask != 0
      ensures ram[currentTask / 4 + 3] == currentTask <==> |state.ring| == 1
    {
      assert RecordAt(ram[..], state.ring, 0);
      if |state.ring| > 1 {
        assert state.ring[1].node != state.ring[0].node;
      }
    }

    /** Stores `words` from the stack pointer `newEsp` up. */
    method WriteStack(words: seq<Word>, newEsp: Word)
      requires newEsp % 4 == 0 && newEsp / 4 + |words| <= ram.Length
      modifies ram
      ensures forall k: nat :: k < ram.Length ==>
                ram[k] == if newEsp / 4 <= k < newEsp / 4 + |words| then words[k - newEsp / 4] else old(ram[k])
    {
      for i := 0 to |words|
        invariant forall k: nat :: k < ram.Length ==>
                    ram[k] == if newEsp / 4 <= k < newEsp / 4 + i then words[k - newEsp / 4] else old(ram[k])
      {
        ram[newEsp / 4 + i] := words[i];
      }
    }

    lemma WorkDone(before: Memory, sp: Word, s: State, regs: Regs, words: seq<Word>)
      requires Holds(before, sp, s) && heap.ram == ram && HeapOn(before)
      requires forall k: nat :: Belongs(s.ring[0], k) ==> !HeapMemory.HeaderWord(heap.heapStart, heap.blocks, k)
      requires |before| == ram.Length && OnStack(ram[..], s.ring[0].lo, s.ring[0].hi, words)
      requires forall k: nat :: k < ram.Length && !(s.ring[0].lo <= k < s.ring[0].hi) ==> ram[k] == before[k]
      ensures WellFormed(s) && 0 <= 4 * (s.ring[0].hi - |words|) < WORD_LIMIT
      ensures heap.Valid() && Holds(ram[..], 4 * (s.ring[0].hi - |words|), Step(s, Worked(regs, words)))
    {
      WorkHolds(before, ram[..], sp, s, regs, words);
      HeapMemory.RepresentsFrame(before, ram[..], heap.heapStart, heap.blocks);
    }

    /** New words on top of what is left of a stack. */
    lemma OnTop(before: Memory, lo: nat, hi: nat, stack: seq<Word>, drop: nat, words: seq<Word>)
      requires OnStack(before, lo, hi, stack) && |before| == ram.Length && drop <= |stack|
      requires var from := hi - |stack| + drop - |words|;
               && lo <= from
               && forall k: nat :: k < ram.Length ==>
                    ram[k] == if from <= k < from + |words| then words[k - from] else before[k]
      ensures OnStack(ram[..], lo, hi, words + stack[drop..])
    {
      var all := words + stack[drop..];
      forall k | 0 <= k < |all| ensures ram[..][hi - |all| + k] == all[k] {
        if k >= |words| {
          assert before[hi - |stack| + (k - |words| + drop)] == stack[k - |words| + drop];
        }
      }
    }

    /** The running task computes: new registers, `drop` words taken off its stack and `words` put on top. */
    method Work(regs: Regs, drop: nat, words: seq<Word>)
      requires Valid() && drop <= |state.stack|
      requires |words| + |state.stack| - drop <= state.ring[0].hi - state.ring[0].lo
      modifies ram, this`ebx, this`esi, this`edi, this`ebp, this`eip, this`esp, this`state
      ensures Valid() && WellFormed(old(state))
      ensures state == Step(old(state), Worked(regs, words + old(state).stack[drop..]))
    {
      ghost var s := state;
      var newEsp := WorkMemory(regs, drop, words);
      SetRegisters(regs, newEsp, Step(s, Worked(regs, words + s.stack[drop..])));
    }

    method WorkMemory(ghost regs: Regs, drop: nat, words: seq<Word>) returns (newEsp: Word)
      requires Sound() && drop <= |state.stack|
      requires |words| + |state.stack| - drop <= state.ring[0].hi - state.ring[0].lo
      modifies ram
      ensures WellFormed(state) && heap.Valid()
      ensures Holds(ram[..], newEsp, Step(state, Worked(regs, words + state.stack[drop..])))
    {
      ghost var before, c := ram[..], state.ring[0];
      WorkTop(drop, words);
      newEsp := esp + 4 * drop - 4 * |words|;
      WriteStack(words, newEsp);
      OnTop(before, c.lo, c.hi, state.stack, drop, words);
      WorkDone(before, esp, state, regs, words + state.stack[drop..]);
    }

    /** Where the new top of the running task's stack is. */
    lemma WorkTop(drop: nat, words: seq<Word>)
      requires Sound() && drop <= |state.stack|
      requires |words| + |state.stack| - drop <= state.ring[0].hi - state.ring[0].lo
      ensures var c := state.ring[0];
              var top := c.hi - |state.stack| + drop - |words|;
              && c.lo <= top && c.hi <= ram.Length && esp + 4 * drop - 4 * |words| == 4 * top && 4 * ram.Length < WORD_LIMIT
              && OnStack(ram[..], c.lo, c.hi, state.stack)
              && forall k: nat :: Belongs(c, k) ==> !HeapMemory.HeaderWord(heap.heapStart, heap.blocks, k)
    {
      assert RecordAt(ram[..], state.ring, 0);
      TaskOffHeaders(state.ring[0]);
    }

    method SetRegisters(regs: Regs, newEsp: Word, ghost s: State)
      requires heap.ram == ram && heap.Valid() && Holds(ram[..], newEsp, s) && s.regs == regs
      requires currentTask == 4 * s.ring[0].node && forall i :: 0 <= i < |s.ring| ==> Backed(s.ring[i])
      modifies this`ebx, this`esi, this`edi, this`ebp, this`eip, this`esp, this`state
      ensures Sound() && state == s
    {
      ebx, esi, edi, ebp, eip := regs.ebx, regs.esi, regs.edi, regs.ebp, regs.eip;
      esp := newEsp;
      Adopt(s);
    }

    // ----- creating a task

    /** A live allocation that backs no task. */
    ghost predicate Spare(x: Alloc)
      reads this, heap
    {
      && x in Live(heap.blocks)
      && forall i :: 0 <= i < |state.ring| ==> state.ring[i].record != x && state.ring[i].home != Some(x)
    }

    /** The words of a spare allocation belong to no task and are not header words. */
    lemma SpareApart(x: Alloc, k: nat)
      requires HeapModel.Valid(heap.blocks) && heap.heapStart % 4 == 0 && Spare(x)
      requires forall i :: 0 <= i < |state.ring| ==> Backed(state.ring[i])
      requires heap.heapStart + HEAP_MAX_SIZE <= 4 * ram.Length
      requires HeapMemory.PayloadWord(heap.heapStart, x, k)
      ensures k < ram.Length && !HeapMemory.HeaderWord(heap.heapStart, heap.blocks, k)
      ensures forall i :: 0 <= i < |state.ring| ==> !Belongs(state.ring[i], k)
    {
      HeapMemory.PayloadNotHeader(heap.heapStart, heap.blocks, x, k);
      HeapRuns.LiveIsBlocks(heap.blocks, x);
      var j :| 0 <= j < |heap.blocks| && heap.blocks[j] == Block(x.size, false) && Offset(heap.blocks, j) == x.offset;
      HeapMemory.HeaderPosition(heap.blocks, j);
      forall i | 0 <= i < |state.ring| ensures !Belongs(state.ring[i], k) {
        var t := state.ring[i];
        assert Backed(t);
        HeapRuns.LiveDisjoint(heap.blocks, x, t.record);
        if t.home.Some? {
          HeapRuns.LiveDisjoint(heap.blocks, x, t.home.value);
        }
      }
    }

    /** Stores into a spare allocation disturb neither the heap nor the tasks. */
    lemma SpareWrites(before: Memory, x: Alloc)
      requires SoundOn(before) && Spare(x) && |before| == ram.Length
      requires forall k: nat :: k < ram.Length && !HeapMemory.PayloadWord(heap.heapStart, x, k) ==> ram[k] == before[k]
      ensures Sound()
    {
      forall k: nat | k < ram.Length && ram[k] != before[k]
        ensures !HeapMemory.HeaderWord(heap.heapStart, heap.blocks, k)
        ensures forall i :: 0 <= i < |state.ring| ==> !Belongs(state.ring[i], k)
      {
        SpareApart(x, k);
      }
      HoldsFrame(before, ram[..], esp, state);
      HeapMemory.RepresentsFrame(before, ram[..], heap.heapStart, heap.blocks);
    }

    /** The call ended as `step` says, and the heap is what it left. */
    ghost predicate Follows(step: Outcome<seq<Block>>, r: Outcome<Word>)
      reads heap
    {
      match step
      case Panicked => r == Panicked
      case Done(bs) => r.Done? && heap.blocks == bs
    }

    /** malloc, on behalf of task_create. */
    method Claim(n: Word) returns (r: Outcome<Word>, ghost x: Alloc)
      requires Sound() && n != 0 && n % 4 == 0
      modifies ram, heap
      ensures Follows(HeapRuns.Step(old(heap.blocks), HeapRuns.Malloc(n)), r)
      ensures r.Done? ==>
                && Sound() && Spare(x) && x !in Live(old(heap.blocks)) && x.size >= n
                && r.value == heap.heapStart + x.offset + HEADER_SIZE
                && Live(old(heap.blocks)) <= Live(heap.blocks)
                && heap.heapStart == old(heap.heapStart)
                && forall y, k: nat :: y in Live(old(heap.blocks)) && HeapMemory.PayloadWord(heap.heapStart, y, k) && k < ram.Length
                     ==> ram[k] == old(ram[k])
    {
      ghost var before := ram[..];
      r := heap.Malloc(n);
      x := Alloc(0, 0);
      if r.Done? {
        x := HeapRuns.MallocEffect(old(heap.blocks), n);
        HeapMemory.PayloadsApart(heap.heapStart, heap.blocks);
        forall i, k: nat | 0 <= i < |state.ring| && Belongs(state.ring[i], k) && k < |before| ensures ram[..][k] == before[k] {
          assert old(Backed(state.ring[i]));
          assert Backed(state.ring[i]);
          BackedNotHeader(state.ring[i], k);
        }
        HoldsFrame(before, ram[..], esp, state);
      }
    }

    /** Where the payload pointer `p` of a live allocation points. */
    lemma LivePosition(x: Alloc, p: nat)
      requires heap.ram == ram && heap.Valid() && x in Live(heap.blocks) && p == heap.heapStart + x.offset + HEADER_SIZE
      ensures p + x.size <= 4 * ram.Length && p % 4 == 0 && 4 * (p / 4) == p
    {
      HeapRuns.LiveIsBlocks(heap.blocks, x);
      var j :| 0 <= j < |heap.blocks| && heap.blocks[j] == Block(x.size, false) && Offset(heap.blocks, j) == x.offset;
      HeapMemory.HeaderPosition(heap.blocks, j);
    }

    /** The stack of a new task: the entry address on top of its stack, then four zeroed registers. */
    method FillStack(stack: Word, entry: Word) returns (top: Word)
      requires stack % 4 == 0 && stack + TASK_STACK_SIZE <= 4 * ram.Length < WORD_LIMIT
      modifies ram
      ensures top == stack + TASK_STACK_SIZE - 4 * SAVED
      ensures OnStack(ram[..], stack / 4, stack / 4 + STACK_WORDS, InitialImage(entry))
      ensures forall k: nat :: k < ram.Length && !(stack / 4 <= k < stack / 4 + STACK_WORDS) ==> ram[k] == old(ram[k])
    {
      top := stack + TASK_STACK_SIZE;
      top := top - 4;
      ram[top / 4] := entry;
      top := top - 4;
      ram[top / 4] := 0;
      top := top - 4;
      ram[top / 4] := 0;
      top := top - 4;
      ram[top / 4] := 0;
      top := top - 4;
      ram[top / 4] := 0;
    }

    /** The new task, as the allocations and the entry point determine it. */
    ghost function NewTask(x: Alloc, y: Alloc, pid: Word, entry: Word): Task
      reads heap
    {
      var node, lo := (heap.heapStart + x.offset + HEADER_SIZE) / 4, (heap.heapStart + y.offset + HEADER_SIZE) / 4;
      Task(node, lo, lo + STACK_WORDS, x, Some(y), pid, InitialImage(entry))
    }

    /** A task made of two different live allocations lies in them, with its structure off its stack. */
    lemma NewTaskShape(x: Alloc, y: Alloc, pid: Word, entry: Word)
      requires heap.ram == ram && heap.Valid() && x in Live(heap.blocks) && y in Live(heap.blocks) && x != y
      requires x.size >= RECORD_SIZE && y.size >= TASK_STACK_SIZE
      ensures var t := NewTask(x, y, pid, entry);
              && Backed(t) && Disjoint(t.node, t.node + RECORD_WORDS, t.lo, t.hi)
              && 0 < t.node && t.node + RECORD_WORDS <= ram.Length && t.hi <= ram.Length
              && 4 * t.node == heap.heapStart + x.offset + HEADER_SIZE && 4 * t.lo == heap.heapStart + y.offset + HEADER_SIZE
    {
      LivePosition(x, heap.heapStart + x.offset + HEADER_SIZE);
      LivePosition(y, heap.heapStart + y.offset + HEADER_SIZE);
      HeapRuns.LiveDisjoint(heap.blocks, x, y);
    }

    /** A task made of spare allocations overlaps no task of the ring. */
    lemma NewTaskApart(t: Task)
      requires Sound() && SpareTask(t)
      ensures Apart(Inserted(state.ring, t))
    {
      var ring := state.ring;
      forall i | 0 <= i < |ring|
        ensures Disjoint(t.node, t.node + RECORD_WORDS, ring[i].node, ring[i].node + RECORD_WORDS)
        ensures Disjoint(t.lo, t.hi, ring[i].lo, ring[i].hi)
        ensures Disjoint(t.node, t.node + RECORD_WORDS, ring[i].lo, ring[i].hi)
        ensures Disjoint(ring[i].node, ring[i].node + RECORD_WORDS, t.lo, t.hi)
      {
        NewTaskApartFrom(t.record, t.home.value, t, ring[i]);
      }
      InsertApart(ring, t);
    }

    lemma NewTaskApartFrom(x: Alloc, y: Alloc, t: Task, u: Task)
      requires Sound() && x in Live(heap.blocks) && y in Live(heap.blocks) && x.size >= RECORD_SIZE && y.size >= TASK_STACK_SIZE
      requires Backed(u) && u.record != x && u.record != y && u.home != Some(x) && u.home != Some(y)
      requires 4 * t.node == heap.heapStart + x.offset + HEADER_SIZE
      requires 4 * t.lo == heap.heapStart + y.offset + HEADER_SIZE && t.hi == t.lo + STACK_WORDS
      ensures Disjoint(t.node, t.node + RECORD_WORDS, u.node, u.node + RECORD_WORDS)
      ensures Disjoint(t.lo, t.hi, u.lo, u.hi)
      ensures Disjoint(t.node, t.node + RECORD_WORDS, u.lo, u.hi)
      ensures Disjoint(u.node, u.node + RECORD_WORDS, t.lo, t.hi)
    {
      HeapRuns.LiveDisjoint(heap.blocks, x, u.record);
      HeapRuns.LiveDisjoint(heap.blocks, y, u.record);
      if u.home.Some? {
        HeapRuns.LiveDisjoint(heap.blocks, x, u.home.value);
        HeapRuns.LiveDisjoint(heap.blocks, y, u.home.value);
      } else {
        HeapPosition(x);
        HeapPosition(y);
      }
    }

    lemma HeapPosition(x: Alloc)
      requires HeapModel.Valid(heap.blocks) && x in Live(heap.blocks)
      ensures x.offset + HEADER_SIZE + x.size <= HEAP_MAX_SIZE
    {
      HeapRuns.LiveIsBlocks(heap.blocks, x);
      var j :| 0 <= j < |heap.blocks| && heap.blocks[j] == Block(x.size, false) && Offset(heap.blocks, j) == x.offset;
      HeapMemory.HeaderPosition(heap.blocks, j);
    }

    /** The link of a task not yet in the ring is none of the words of the running task. */
    lemma LinksApart(t: Task)
      requires Sound() && SpareTask(t)
      ensures currentTask / 4 == state.ring[0].node && currentTask / 4 + 3 < ram.Length && t.node != currentTask / 4
      ensures HeapMemory.PayloadWord(heap.heapStart, t.record, t.node + 3)
    {
      assert RecordAt(ram[..], state.ring, 0);
      SpareApart(t.record, t.node + 3);
      assert Belongs(state.ring[0], state.ring[0].node + 3);
    }

    /** `task->next = current_task->next` */
    method CopyNext(node: nat, ghost t: Task)
      requires Sound() && SpareTask(t) && node == t.node && ImageAt(ram[..], t)
      modifies ram
      ensures Sound() && ImageAt(ram[..], t) && currentTask / 4 + 3 < ram.Length
      ensures ram[node + 3] == ram[currentTask / 4 + 3]
      ensures ram[node + 1] == old(ram[node + 1]) && ram[node + 2] == old(ram[node + 2])
    {
      LinksApart(t);
      KeepImage(t, node + 3, ram[currentTask / 4 + 3]);
      ghost var before := ram[..];
      ram[node + 3] := ram[currentTask / 4 + 3];
      SpareWrites(before, t.record);
    }

    /** `current_task->next = task`, after which the ring has a new member. */
    method Link(node: nat, ghost t: Task)
      requires Sound() && Backed(t) && Apart(Inserted(state.ring, t)) && node == t.node && currentTask / 4 + 3 < ram.Length
      requires node + RECORD_WORDS <= ram.Length && t.lo <= t.hi <= ram.Length && 0 < node && 4 * node < WORD_LIMIT
      requires ram[node + 1] == t.pid && ram[node + 2] % 256 == TASK_READY && ImageAt(ram[..], t)
      requires ram[node + 3] == ram[currentTask / 4 + 3]
      modifies ram, this`state
      ensures Sound() && WellFormed(old(state)) && Enabled(old(state), Created(t))
      ensures state == Step(old(state), Created(t))
    {
      ghost var middle := ram[..];
      ram[currentTask / 4 + 3] := 4 * node;
      LinkDone(middle, t);
      Adopt(Step(state, Created(t)));
    }

    lemma LinkDone(middle: Memory, t: Task)
      requires SoundOn(middle) && Backed(t) && Apart(Inserted(state.ring, t)) && |middle| == ram.Length
      requires t.node + RECORD_WORDS <= ram.Length && t.lo <= t.hi <= ram.Length && 0 < t.node && 4 * t.node < WORD_LIMIT
      requires middle[t.node + 1] == t.pid && middle[t.node + 2] % 256 == TASK_READY && ImageAt(middle, t)
      requires state.ring[0].node + 3 < ram.Length && middle[t.node + 3] == middle[state.ring[0].node + 3]
      requires ram[..] == middle[state.ring[0].node + 3 := 4 * t.node]
      ensures WellFormed(state) && Enabled(state, Created(t))
      ensures heap.Valid() && Holds(ram[..], esp, Step(state, Created(t)))
      ensures var r := Step(state, Created(t)).ring; r[0] == state.ring[0] && forall i :: 0 <= i < |r| ==> Backed(r[i])
    {
      InsertionOf(state.ring, t);
      LinkHolds(middle, ram[..], esp, state, t);
      LinkKeepsHeap(middle, state.ring[0], 4 * t.node);
      InsertionBacked(state.ring, t, Inserted(state.ring, t));
      assert Step(state, Created(t)).ring == Inserted(state.ring, t);
    }

    /** A store into a task's link leaves the heap alone. */
    lemma LinkKeepsHeap(middle: Memory, u: Task, v: Word)
      requires heap.ram == ram && HeapOn(middle) && Backed(u) && |middle| == ram.Length && u.node + 3 < ram.Length
      requires ram[..] == middle[u.node + 3 := v]
      ensures heap.Valid()
    {
      if HeapMemory.HeaderWord(heap.heapStart, heap.blocks, u.node + 3) {
        HeapMemory.PayloadNotHeader(heap.heapStart, heap.blocks, u.record, u.node + 3);
      }
      HeapMemory.RepresentsFrame(middle, ram[..], heap.heapStart, heap.blocks);
    }

    lemma InsertionBacked(ring: seq<Task>, t: Task, r: seq<Task>)
      requires Insertion(ring, t, r) && Backed(t) && forall i :: 0 <= i < |ring| ==> Backed(ring[i])
      ensures forall i :: 0 <= i < |r| ==> Backed(r[i])
    {
      forall i | 0 <= i < |r| ensures Backed(r[i]) {
        assert r[i] == t || r[i] == ring[if i == 0 then 0 else i - 1];
      }
    }

    /** The pid and the state byte of a new structure. */
    method NumberTask(node: nat, pid: Word, ghost x: Alloc)
      requires Sound() && Spare(x) && x.size >= RECORD_SIZE && 4 * node == heap.heapStart + x.offset + HEADER_SIZE
      requires node + RECORD_WORDS <= ram.Length
      modifies ram
      ensures Sound() && ram[node + 1] == pid && ram[node + 2] % 256 == TASK_READY
    {
      ghost var before := ram[..];
      ram[node + 1] := pid;
      ram[node + 2] := WithByte(ram[node + 2], TASK_READY);
      assert HeapMemory.PayloadWord(heap.heapStart, x, node + 1) && HeapMemory.PayloadWord(heap.heapStart, x, node + 2);
      SpareWrites(before, x);
    }

    /** The second half: allocate the stack, build it, and record its stack pointer. */
    method GiveStack(node: nat, entry: Word, ghost x: Alloc, ghost pid: Word) returns (r: Outcome<Word>, ghost t: Task)
      requires Sound() && Spare(x) && x.size >= RECORD_SIZE && 4 * node == heap.heapStart + x.offset + HEADER_SIZE
      requires node + RECORD_WORDS <= ram.Length && ram[node + 1] == pid && ram[node + 2] % 256 == TASK_READY
      modifies ram, heap
      ensures Follows(HeapRuns.Step(old(heap.blocks), HeapRuns.Malloc(TASK_STACK_SIZE)), r)
      ensures r.Done? ==>
                && Sound() && SpareTask(t) && ImageAt(ram[..], t)
                && t.node == node && t.pid == pid && t.image == InitialImage(entry)
                && ram[node + 1] == pid && ram[node + 2] % 256 == TASK_READY
    {
      ghost var y;
      r, y := ClaimBeside(node, x);
      t := NewTask(x, x, pid, entry);
      if r == Panicked {
        return;
      }
      t := NewTask(x, y, pid, entry);
      NewTaskShape(x, y, pid, entry);
      BuildStack(entry, node, r.value, t);
    }

    /** The second malloc of task_create leaves the words of the first one's allocation alone. */
    method ClaimBeside(node: nat, ghost x: Alloc) returns (r: Outcome<Word>, ghost y: Alloc)
      requires Sound() && Spare(x) && x.size >= RECORD_SIZE && 4 * node == heap.heapStart + x.offset + HEADER_SIZE
      requires node + RECORD_WORDS <= ram.Length
      modifies ram, heap
      ensures Follows(HeapRuns.Step(old(heap.blocks), HeapRuns.Malloc(TASK_STACK_SIZE)), r)
      ensures r.Done? ==>
                && Sound() && Spare(x) && Spare(y) && x != y && y.size >= TASK_STACK_SIZE
                && heap.heapStart == old(heap.heapStart) && r.value == heap.heapStart + y.offset + HEADER_SIZE
                && ram[node + 1] == old(ram[node + 1]) && ram[node + 2] == old(ram[node + 2])
    {
      assert HeapMemory.PayloadWord(heap.heapStart, x, node + 1) && HeapMemory.PayloadWord(heap.heapStart, x, node + 2);
      r, y := Claim(TASK_STACK_SIZE);
    }

    /** Fills the stack of task `t` and records its stack pointer. */
    method BuildStack(entry: Word, node: nat, stack: Word, ghost t: Task)
      requires Sound() && SpareTask(t) && node == t.node && stack == 4 * t.lo && t.image == InitialImage(entry)
      modifies ram
      ensures Sound() && ImageAt(ram[..], t)
      ensures ram[node + 1] == old(ram[node + 1]) && ram[node + 2] == old(ram[node + 2])
    {
      SpareTaskShape(t);
      var top := FillSpare(stack, entry, t.home.value, t.lo);
      assert Sound();
      StoreTop(node, top, t);
    }

    lemma SpareTaskShape(t: Task)
      requires Sound() && SpareTask(t)
      ensures t.home.Some? && t.hi == t.lo + STACK_WORDS <= ram.Length && t.home.value.size >= TASK_STACK_SIZE
      ensures 4 * t.lo == heap.heapStart + t.home.value.offset + HEADER_SIZE && 4 * ram.Length < WORD_LIMIT
      ensures !(t.lo <= t.node + 1 < t.hi) && !(t.lo <= t.node + 2 < t.hi)
    {
    }

    method StoreTop(node: nat, top: Word, ghost t: Task)
      requires Sound() && SpareTask(t) && node == t.node && top == StackPointer(t)
      requires OnStack(ram[..], t.lo, t.hi, t.image)
      modifies ram
      ensures Sound() && ram[..] == old(ram[..])[node := top] && ImageAt(ram[..], t)
    {
      ghost var before := ram[..];
      ram[node] := top;
      assert HeapMemory.PayloadWord(heap.heapStart, t.record, node);
      SpareWrites(before, t.record);
      ImageReady(before, t);
    }

    /** A task not yet in the ring, made of two spare allocations. */
    ghost predicate SpareTask(t: Task)
      reads this, heap
    {
      && Backed(t) && t.home.Some? && Spare(t.record) && Spare(t.home.value) && t.record != t.home.value
      && Disjoint(t.node, t.node + RECORD_WORDS, t.lo, t.hi) && |t.image| == SAVED
      && 0 < t.node && t.node + RECORD_WORDS <= ram.Length && t.hi <= ram.Length && 4 * ram.Length < WORD_LIMIT
    }

    lemma ImageReady(before: Memory, t: Task)
      requires |before| == ram.Length && t.node < ram.Length && Disjoint(t.node, t.node + RECORD_WORDS, t.lo, t.hi)
      requires OnStack(before, t.lo, t.hi, t.image) && |t.image| >= SAVED && 0 <= StackPointer(t) < WORD_LIMIT
      requires ram[..] == before[t.node := StackPointer(t)]
      ensures ImageAt(ram[..], t)
    {
    }

    method FillSpare(stack: Word, entry: Word, ghost y: Alloc, ghost lo: nat) returns (top: Word)
      requires Sound() && Spare(y) && y.size >= TASK_STACK_SIZE && stack == heap.heapStart + y.offset + HEADER_SIZE
      requires stack == 4 * lo && lo + STACK_WORDS <= ram.Length && 4 * ram.Length < WORD_LIMIT
      modifies ram
      ensures Sound() && top == 4 * (lo + STACK_WORDS - SAVED)
      ensures OnStack(ram[..], lo, lo + STACK_WORDS, InitialImage(entry))
      ensures forall k: nat :: k < ram.Length && !(lo <= k < lo + STACK_WORDS) ==> ram[k] == old(ram[k])
    {
      ghost var before := ram[..];
      top := FillStack(stack, entry);
      SpareWrites(before, y);
    }

    /** The task has a heap allocation of its own for its stack, of TASK_STACK_SIZE bytes. */
    static ghost predicate OwnStack(t: Task) {
      t.home.Some? && t.hi == t.lo + 1024
    }

    /** Stack and insertion, once the structure is allocated and the pid is taken. */
    method FinishTask(node: nat, entry: Word, ghost x: Alloc, ghost pid: Word) returns (r: Outcome<Word>, ghost t: Task)
      requires Sound() && DistinctPids(state.ring) && pid == |state.ring| && nextPid == pid + 1
      requires Spare(x) && x.size >= RECORD_SIZE && 4 * node == heap.heapStart + x.offset + HEADER_SIZE
      requires node + RECORD_WORDS <= ram.Length && ram[node + 1] == pid && ram[node + 2] % 256 == TASK_READY
      modifies ram, heap, this`state
      ensures Follows(HeapRuns.Step(old(heap.blocks), HeapRuns.Malloc(TASK_STACK_SIZE)), r)
      ensures r.Done? ==>
                && Valid() && WellFormed(old(state)) && Enabled(old(state), Created(t))
                && state == Step(old(state), Created(t))
                && t.image == InitialImage(entry) && t.pid == pid && t.node == node && OwnStack(t)
    {
      r, t := GiveStack(node, entry, x, pid);
      if r == Panicked {
        return;
      }
      InsertPids(state.ring, t);
      EnterRing(node, t);
    }

    /** The two allocations of task_create, one after the other. */
    static function CreateStep(bs: seq<Block>): Outcome<seq<Block>> {
      match HeapRuns.Step(bs, HeapRuns.Malloc(RECORD_SIZE))
      case Panicked => Panicked
      case Done(cs) => HeapRuns.Step(cs, HeapRuns.Malloc(TASK_STACK_SIZE))
    }

    /** `task_create(entry)` */
    method TaskCreate(entry: Word) returns (r: Outcome<Word>, ghost t: Task)
      requires Valid()
      modifies ram, heap, this
      ensures Follows(CreateStep(old(heap.blocks)), r)
      ensures r.Done? ==>
                && Valid() && WellFormed(old(state)) && Enabled(old(state), Created(t))
                && state == Step(old(state), Created(t))
                && t.image == InitialImage(entry) && t.pid == old(nextPid) && r.value == 4 * t.node && OwnStack(t)
    {
      RingSmall();
      ghost var x;
      r, x := Claim(RECORD_SIZE);
      t := NewTask(x, x, nextPid, entry);
      if r == Panicked {
        return;
      }
      LivePosition(x, r.value);
      var node := r.value / 4;
      var finished;
      finished, t := CompleteTask(node, entry, x);
      if finished == Panicked {
        r := Panicked;
      }
    }

    /** task_create once the structure is allocated. */
    method CompleteTask(node: nat, entry: Word, ghost x: Alloc) returns (r: Outcome<Word>, ghost t: Task)
      requires Valid() && |state.ring| + 1 < WORD_LIMIT
      requires Spare(x) && x.size >= RECORD_SIZE && 4 * node == heap.heapStart + x.offset + HEADER_SIZE
      requires node + RECORD_WORDS <= ram.Length
      modifies ram, heap, this`nextPid, this`state
      ensures Follows(HeapRuns.Step(old(heap.blocks), HeapRuns.Malloc(TASK_STACK_SIZE)), r)
      ensures r.Done? ==>
                && Valid() && WellFormed(old(state)) && Enabled(old(state), Created(t))
                && state == Step(old(state), Created(t))
                && t.image == InitialImage(entry) && t.pid == old(nextPid) && t.node == node && OwnStack(t)
    {
      ghost var pid := nextPid;
      NumberTask(node, nextPid, x);
      nextPid := Wrap(nextPid as int + 1);
      r, t := FinishTask(node, entry, x, pid);
    }

    /** The insertion at the end of task_create. */
    method EnterRing(node: nat, ghost t: Task)
      requires Sound() && SpareTask(t) && node == t.node && ImageAt(ram[..], t)
      requires ram[node + 1] == t.pid && ram[node + 2] % 256 == TASK_READY
      modifies ram, this`state
      ensures Sound() && WellFormed(old(state)) && Enabled(old(state), Created(t))
      ensures state == Step(old(state), Created(t))
    {
      NewTaskApart(t);
      CopyNext(node, t);
      Link(node, t);
    }

    /** The image of a task whose structure lies off its stack survives a store into the rest of the structure. */
    lemma KeepImage(t: Task, k: nat, v: Word)
      requires ImageAt(ram[..], t) && Disjoint(t.node, t.node + RECORD_WORDS, t.lo, t.hi)
      requires t.node < k < t.node + RECORD_WORDS <= ram.Length
      ensures ImageAt(ram[..][k := v], t)
    {
    }

    /** `task_init()`: a structure for the code that is already running, on the boot stack [lo, hi). */
    method TaskInit(ghost lo: nat, ghost hi: nat, ghost words: seq<Word>) returns (r: Outcome<Word>, ghost t: Task)
      requires heap.ram == ram && heap.Valid() && nextPid == 1
      requires lo <= hi <= ram.Length && (4 * hi <= heap.heapStart || heap.heapStart + HEAP_MAX_SIZE <= 4 * lo)
      requires OnStack(ram[..], lo, hi, words) && esp == 4 * (hi - |words|)
      modifies ram, heap, this`currentTask, this`state
      ensures Follows(HeapRuns.Step(old(heap.blocks), HeapRuns.Malloc(RECORD_SIZE)), r)
      ensures r.Done? ==>
                && Valid() && state == State([t], Regs(ebx, esi, edi, ebp, eip), words)
                && t.pid == 0 && t.home == None && t.lo == lo && t.hi == hi && r.value == 4 * t.node
    {
      ghost var before := ram[..];
      t := Task(0, lo, hi, Alloc(0, 0), None, 0, []);
      r := heap.Malloc(RECORD_SIZE);
      if r == Panicked {
        return;
      }
      ghost var x := HeapRuns.MallocEffect(old(heap.blocks), RECORD_SIZE);
      LivePosition(x, heap.heapStart + x.offset + HEADER_SIZE);
      forall k: nat | lo <= k < hi ensures ram[k] == before[k] {
        if HeapMemory.HeaderWord(heap.heapStart, heap.blocks, k) {
          HeapMemory.HeaderInHeap(heap.heapStart, heap.blocks, k);
        }
      }
      t := Task(r.value / 4, lo, hi, x, None, 0, []);
      FirstTask(r.value / 4, t, words);
    }

    /** The stores of task_init into the structure of the first task. */
    method FirstTask(node: nat, ghost t: Task, ghost words: seq<Word>)
      requires heap.ram == ram && heap.Valid() && nextPid == 1 && node == t.node && 0 < node
      requires Backed(t) && t.home == None && t.pid == 0
      requires node + RECORD_WORDS <= ram.Length && 4 * node < WORD_LIMIT && t.lo <= t.hi <= ram.Length
      requires OnStack(ram[..], t.lo, t.hi, words) && esp == 4 * (t.hi - |words|)
      modifies ram, this`currentTask, this`state
      ensures Valid() && state == State([t], Regs(ebx, esi, edi, ebp, eip), words)
    {
      ghost var before := ram[..];
      HeapPosition(t.record);
      ram[node + 1] := 0;
      ram[node + 2] := WithByte(ram[node + 2], TASK_RUNNING);
      ram[node + 3] := 4 * node;
      currentTask := 4 * node;
      forall k: nat | node <= k < node + RECORD_WORDS ensures !HeapMemory.HeaderWord(heap.heapStart, heap.blocks, k) {
        HeapMemory.PayloadNotHeader(heap.heapStart, heap.blocks, t.record, k);
      }
      HeapMemory.RepresentsFrame(before, ram[..], heap.heapStart, heap.blocks);
      ghost var s := State([t], Regs(ebx, esi, edi, ebp, eip), words);
      assert RecordAt(ram[..], s.ring, 0);
      assert OnStack(ram[..], t.lo, t.hi, words);
      Adopt(s);
    }

    /** The heap is far too small for the pids to wrap. */
    lemma RingSmall()
      requires Sound()
      ensures |state.ring| + 1 < WORD_LIMIT
    {
      var ring := state.ring;
      forall i, j | 0 <= i < j < |ring| ensures ring[i].record != ring[j].record {
        assert Disjoint(ring[i].node, ring[i].node + RECORD_WORDS, ring[j].node, ring[j].node + RECORD_WORDS);
        assert Backed(ring[i]) && Backed(ring[j]);
      }
      RecordsLive(ring, Live(heap.blocks));
      HeapRuns.LiveCountIsCardinality(heap.blocks, 0);
      LiveCountBound(heap.blocks);
    }
  }

  lemma {:induction false} RecordsLive(ring: seq<Task>, live: set<Alloc>)
    requires forall i :: 0 <= i < |ring| ==> ring[i].record in live
    requires forall i, j :: 0 <= i < j < |ring| ==> ring[i].record != ring[j].record
    ensures |ring| <= |live|
  {
    if ring != [] {
      var x := ring[0].record;
      RecordsLive(ring[1..], live - {x});
    }
  }

  lemma {:induction false} LiveCountBound(bs: seq<Block>)
    ensures HEADER_SIZE * HeapRuns.LiveCount(bs) <= Span(bs)
  {
    if bs != [] {
      LiveCountBound(bs[1..]);
    }
  }

  lemma InsertPids(ring: seq<Task>, t: Task)
    requires ring != [] && DistinctPids(ring) && t.pid == |ring|
    ensures DistinctPids(Inserted(ring, t))
  {
    var r := Inserted(ring, t);
    assert forall i :: 0 <= i < |r| ==> r[i] == if i == 0 then ring[0] else if i == 1 then t else ring[i - 1];
  }
}
