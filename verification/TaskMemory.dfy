/**
 How the ring of tasks lies in memory: each `struct task` holds the saved stack pointer, the pid, the state byte and
 the address of the next task; each stack grows down from its end.
 */
module TaskMemory {
  import opened Words
  import opened HeapModel
  import opened TaskModel

  type Memory = seq<Word>

  const RECORD_WORDS := 4     // sizeof(struct task) / 4
  const STACK_WORDS := 1024   // TASK_STACK_SIZE / 4
  const TASK_READY := 0
  const TASK_RUNNING := 1

  predicate Disjoint(a: nat, b: nat, c: nat, d: nat) {
    b <= c || d <= a
  }

  function Succ(i: nat, n: nat): nat {
    if i + 1 == n then 0 else i + 1
  }

  /** Storing a byte leaves the other three bytes of its word alone. */
  function WithByte(w: Word, b: nat): Word
    requires b < 256
  {
    w - w % 256 + b
  }

  /** No two structures overlap, no two stacks do, and no structure lies in a stack. */
  ghost predicate Apart(ring: seq<Task>) {
    && (forall i, j :: 0 <= i < |ring| && 0 <= j < |ring| && i != j ==>
          && Disjoint(ring[i].node, ring[i].node + RECORD_WORDS, ring[j].node, ring[j].node + RECORD_WORDS)
          && Disjoint(ring[i].lo, ring[i].hi, ring[j].lo, ring[j].hi))
    && (forall i, j :: 0 <= i < |ring| && 0 <= j < |ring| ==>
          Disjoint(ring[i].node, ring[i].node + RECORD_WORDS, ring[j].lo, ring[j].hi))
  }

  ghost predicate RecordAt(mem: Memory, ring: seq<Task>, i: nat)
    requires i < |ring|
  {
    var a := ring[i].node;
    && 0 < a && a + RECORD_WORDS <= |mem| && ring[i].lo <= ring[i].hi <= |mem|
    && mem[a + 1] == ring[i].pid
    && mem[a + 2] % 256 == (if i == 0 then TASK_RUNNING else TASK_READY)
    && mem[a + 3] == 4 * ring[Succ(i, |ring|)].node
  }

  /** The topmost words of the stack [lo, hi) are `words`. */
  ghost predicate OnStack(mem: Memory, lo: nat, hi: nat, words: seq<Word>) {
    && lo + |words| <= hi <= |mem|
    && forall k :: 0 <= k < |words| ==> mem[hi - |words| + k] == words[k]
  }

  ghost predicate ImageAt(mem: Memory, t: Task) {
    && t.node < |mem| && |t.image| >= SAVED
    && OnStack(mem, t.lo, t.hi, t.image)
    && mem[t.node] == StackPointer(t)
  }

  /** Memory and stack pointer hold the abstract state. */
  ghost predicate Holds(mem: Memory, esp: Word, s: State) {
    && s.ring != [] && 4 * |mem| < WORD_LIMIT && Apart(s.ring)
    && (forall i :: 0 <= i < |s.ring| ==> RecordAt(mem, s.ring, i))
    && (forall i :: 0 < i < |s.ring| ==> ImageAt(mem, s.ring[i]))
    && OnStack(mem, s.ring[0].lo, s.ring[0].hi, s.stack)
    && esp == 4 * (s.ring[0].hi - |s.stack|)
  }

  lemma HoldsWellFormed(mem: Memory, esp: Word, s: State)
    requires Holds(mem, esp, s)
    ensures WellFormed(s)
    ensures |s.ring| > 1 ==> 0 <= StackPointer(s.ring[1]) < WORD_LIMIT && 4 * s.ring[0].node < WORD_LIMIT
  {
    forall i | 0 < i < |s.ring| ensures |s.ring[i].image| >= SAVED {
      assert ImageAt(mem, s.ring[i]);
    }
    assert RecordAt(mem, s.ring, 0);
  }

  // ----- one lemma per operation: from what was written to what is then held

  /** Words that a yield writes: two state bytes, the saved stack pointer, and the seven words below the stack. */
  predicate YieldWrites(s: State, k: nat)
    requires |s.ring| > 1
  {
    var top := s.ring[0].hi - |s.stack|;
    || k == s.ring[0].node || k == s.ring[0].node + 2 || k == s.ring[1].node + 2 || top - 7 <= k < top
  }

  ghost predicate Yielding(mem: Memory, mem': Memory, s: State, ret: Word)
    requires |s.ring| > 1
  {
    var t, u := s.ring[0], s.ring[1];
    var top := t.hi - |s.stack|;
    && |mem'| == |mem| && t.lo + 7 <= top && top <= |mem| && t.node + RECORD_WORDS <= |mem| && u.node + RECORD_WORDS <= |mem|
    && (forall k: nat :: k < |mem| && !YieldWrites(s, k) ==> mem'[k] == mem[k])
    && mem'[t.node] == 4 * (top - 7)
    && mem'[t.node + 2] == WithByte(mem[t.node + 2], TASK_READY)
    && mem'[u.node + 2] == WithByte(mem[u.node + 2], TASK_RUNNING)
    && mem'[top - 1] == StackPointer(u) && mem'[top - 2] == 4 * t.node && mem'[top - 3] == ret
    && mem'[top - 4] == s.regs.ebx && mem'[top - 5] == s.regs.esi && mem'[top - 6] == s.regs.edi && mem'[top - 7] == s.regs.ebp
  }

  lemma YieldApart(mem: Memory, esp: Word, s: State, i: nat)
    requires Holds(mem, esp, s) && |s.ring| > 1 && i < |s.ring| && |s.stack| + 7 <= s.ring[0].hi - s.ring[0].lo
    ensures var t := s.ring[i];
            && !YieldWrites(s, t.node + 1) && !YieldWrites(s, t.node + 3)
            && (i > 1 ==> !YieldWrites(s, t.node + 2))
            && (i > 0 ==> !YieldWrites(s, t.node) && forall k: nat :: t.lo <= k < t.hi ==> !YieldWrites(s, k))
            && (i == 0 ==> forall k: nat :: t.hi - |s.stack| <= k < t.hi ==> !YieldWrites(s, k))
  {
    assert RecordAt(mem, s.ring, i) && RecordAt(mem, s.ring, 0) && RecordAt(mem, s.ring, 1);
  }

  predicate SamePlace(t: Task, u: Task) {
    t.node == u.node && t.lo == u.lo && t.hi == u.hi && t.pid == u.pid && t.record == u.record && t.home == u.home
  }

  /** `r` is the ring one place further on: the old head is last, with a new image. */
  ghost predicate Rotation(ring: seq<Task>, r: seq<Task>) {
    && |r| == |ring| > 1
    && (forall i :: 0 <= i < |r| ==> SamePlace(r[i], ring[Succ(i, |r|)]))
    && (forall i :: 0 <= i < |r| - 1 ==> r[i] == ring[i + 1])
  }

  lemma RotationOf(s: State, ret: Word)
    requires WellFormed(s) && |s.ring| > 1 && Enabled(s, Yielded(ret))
    ensures var r := Step(s, Yielded(ret)).ring;
            && Rotation(s.ring, r)
            && r[|r| - 1].image == Saved(s.regs, ret, 4 * s.ring[0].node, StackPointer(s.ring[1]), s.stack)
  {
  }

  /** After a yield only the next task's structure says running. */
  lemma YieldFields(mem: Memory, mem': Memory, esp: Word, s: State, ret: Word, j: nat)
    requires Holds(mem, esp, s) && |s.ring| > 1 && Yielding(mem, mem', s, ret) && j < |s.ring|
    ensures var t := s.ring[j];
            && 0 < t.node && t.node + RECORD_WORDS <= |mem'| && t.lo <= t.hi <= |mem'|
            && mem'[t.node + 1] == t.pid && mem'[t.node + 3] == 4 * s.ring[Succ(j, |s.ring|)].node
            && mem'[t.node + 2] % 256 == if j == 1 then TASK_RUNNING else TASK_READY
  {
    assert RecordAt(mem, s.ring, j);
    YieldApart(mem, esp, s, j);
  }

  lemma YieldRecord(mem: Memory, mem': Memory, esp: Word, s: State, ret: Word, r: seq<Task>, i: nat)
    requires Holds(mem, esp, s) && |s.ring| > 1 && Yielding(mem, mem', s, ret)
    requires Rotation(s.ring, r) && i < |r|
    ensures RecordAt(mem', r, i)
  {
    var j := Succ(i, |r|);
    YieldFields(mem, mem', esp, s, ret, j);
    RotationAt(s.ring, r, i);
    RotationAt(s.ring, r, j);
  }

  lemma RotationAt(ring: seq<Task>, r: seq<Task>, i: nat)
    requires Rotation(ring, r) && i < |r|
    ensures SamePlace(r[i], ring[Succ(i, |r|)]) && (Succ(i, |r|) == 1 <==> i == 0)
  {
  }

  lemma YieldImage(mem: Memory, mem': Memory, esp: Word, s: State, ret: Word, t: Task, j: nat)
    requires Holds(mem, esp, s) && |s.ring| > 1 && Yielding(mem, mem', s, ret)
    requires 0 < j < |s.ring| && t == s.ring[j]
    ensures ImageAt(mem', t)
  {
    YieldApart(mem, esp, s, j);
    assert ImageAt(mem, s.ring[j]);
  }

  lemma YieldOwnImage(mem: Memory, mem': Memory, esp: Word, s: State, ret: Word, t: Task)
    requires Holds(mem, esp, s) && |s.ring| > 1 && Yielding(mem, mem', s, ret)
    requires 0 <= StackPointer(s.ring[1]) < WORD_LIMIT && 4 * s.ring[0].node < WORD_LIMIT
    requires SamePlace(t, s.ring[0])
    requires t.image == Saved(s.regs, ret, 4 * s.ring[0].node, StackPointer(s.ring[1]), s.stack)
    ensures ImageAt(mem', t)
  {
    YieldApart(mem, esp, s, 0);
    var top := t.hi - |s.stack|;
    forall k | 0 <= k < |s.stack| ensures mem'[top + k] == s.stack[k] {
      assert mem[top + k] == s.stack[k];
    }
    SavedOnStack(mem', t.lo, t.hi, s, ret, t.image);
  }

  /** Seven words below a stack make the image. */
  lemma SavedOnStack(mem': Memory, lo: nat, hi: nat, s: State, ret: Word, image: seq<Word>)
    requires |s.ring| > 1 && 0 <= StackPointer(s.ring[1]) < WORD_LIMIT && 4 * s.ring[0].node < WORD_LIMIT
    requires image == Saved(s.regs, ret, 4 * s.ring[0].node, StackPointer(s.ring[1]), s.stack)
    requires lo + |s.stack| + 7 <= hi <= |mem'|
    requires forall k :: 0 <= k < |s.stack| ==> mem'[hi - |s.stack| + k] == s.stack[k]
    requires var top := hi - |s.stack|;
             && mem'[top - 1] == StackPointer(s.ring[1]) && mem'[top - 2] == 4 * s.ring[0].node && mem'[top - 3] == ret
             && mem'[top - 4] == s.regs.ebx && mem'[top - 5] == s.regs.esi
             && mem'[top - 6] == s.regs.edi && mem'[top - 7] == s.regs.ebp
    ensures OnStack(mem', lo, hi, image)
  {
    forall k | 0 <= k < |image| ensures mem'[hi - |image| + k] == image[k] {
      if k >= 7 {
        assert image[k] == s.stack[k - 7];
      }
    }
  }

  lemma YieldHolds(mem: Memory, mem': Memory, esp: Word, s: State, ret: Word)
    requires Holds(mem, esp, s) && |s.ring| > 1 && Yielding(mem, mem', s, ret)
    ensures WellFormed(s) && Enabled(s, Yielded(ret))
    ensures 0 <= StackPointer(s.ring[1]) && StackPointer(s.ring[1]) + 4 * SAVED < WORD_LIMIT
    ensures Holds(mem', StackPointer(s.ring[1]) + 4 * SAVED, Step(s, Yielded(ret)))
  {
    HoldsWellFormed(mem, esp, s);
    var s' := Step(s, Yielded(ret));
    var r, u := s'.ring, s.ring[1];
    assert ImageAt(mem, u);
    RotationOf(s, ret);
    forall i | 0 <= i < |r| ensures RecordAt(mem', r, i) {
      YieldRecord(mem, mem', esp, s, ret, r, i);
    }
    forall i | 0 < i < |r| ensures ImageAt(mem', r[i]) {
      if i == |r| - 1 {
        YieldOwnImage(mem, mem', esp, s, ret, r[i]);
      } else {
        YieldImage(mem, mem', esp, s, ret, r[i], i + 1);
      }
    }
    ResumedStack(mem, mem', esp, s, ret);
    RotationApart(s.ring, r);
  }

  /** What is left of the next task's image is its stack. */
  lemma ResumedStack(mem: Memory, mem': Memory, esp: Word, s: State, ret: Word)
    requires Holds(mem, esp, s) && |s.ring| > 1 && Yielding(mem, mem', s, ret) && |s.ring[1].image| >= SAVED
    ensures OnStack(mem', s.ring[1].lo, s.ring[1].hi, s.ring[1].image[SAVED..])
  {
    var u := s.ring[1];
    assert ImageAt(mem, u);
    YieldApart(mem, esp, s, 1);
    var stack := u.image[SAVED..];
    forall k | 0 <= k < |stack| ensures mem'[u.hi - |stack| + k] == stack[k] {
      assert mem[u.hi - |u.image| + (k + SAVED)] == u.image[k + SAVED];
    }
  }

  lemma RotationApart(ring: seq<Task>, r: seq<Task>)
    requires Rotation(ring, r) && Apart(ring)
    ensures Apart(r)
  {
    var n := |r|;
    forall i, j | 0 <= i < n && 0 <= j < n
      ensures i != j ==> Disjoint(r[i].node, r[i].node + RECORD_WORDS, r[j].node, r[j].node + RECORD_WORDS)
      ensures i != j ==> Disjoint(r[i].lo, r[i].hi, r[j].lo, r[j].hi)
      ensures Disjoint(r[i].node, r[i].node + RECORD_WORDS, r[j].lo, r[j].hi)
    {
      var p, q := Succ(i, n), Succ(j, n);
      assert SamePlace(r[i], ring[p]) && SamePlace(r[j], ring[q]) && (i != j ==> p != q);
    }
  }

  lemma RotationPids(ring: seq<Task>, r: seq<Task>)
    requires Rotation(ring, r) && DistinctPids(ring)
    ensures DistinctPids(r)
  {
    forall i | 0 <= i < |r| ensures r[i].pid == ring[Succ(i, |r|)].pid < |r| {
      assert SamePlace(r[i], ring[Succ(i, |r|)]);
    }
  }

  /** Word `k` belongs to the structure or the stack of task `t`. */
  predicate Belongs(t: Task, k: nat) {
    t.node <= k < t.node + RECORD_WORDS || t.lo <= k < t.hi
  }

  ghost predicate Creating(mem: Memory, mem': Memory, s: State, t: Task)
    requires s.ring != []
  {
    var a, c := t.node, s.ring[0].node;
    && |mem'| == |mem| && 0 < a && a + RECORD_WORDS <= |mem| && c + RECORD_WORDS <= |mem| && t.lo <= t.hi <= |mem|
    && (forall i, k: nat :: 0 <= i < |s.ring| && Belongs(s.ring[i], k) && k != c + 3 && k < |mem| ==> mem'[k] == mem[k])
    && mem'[a + 1] == t.pid && mem'[a + 2] % 256 == TASK_READY
    && mem'[a + 3] == mem[c + 3] && mem'[c + 3] == 4 * a
    && ImageAt(mem', t)
  }

  /** The head of the ring lies off a task entered behind it. */
  lemma HeadApart(ring: seq<Task>, t: Task, r: seq<Task>)
    requires Insertion(ring, t, r) && Apart(r)
    ensures Disjoint(ring[0].node, ring[0].node + RECORD_WORDS, t.node, t.node + RECORD_WORDS)
    ensures Disjoint(ring[0].node, ring[0].node + RECORD_WORDS, t.lo, t.hi)
  {
    assert Disjoint(r[0].node, r[0].node + RECORD_WORDS, r[1].node, r[1].node + RECORD_WORDS);
    assert Disjoint(r[0].node, r[0].node + RECORD_WORDS, r[1].lo, r[1].hi);
  }

  /** With the new structure filled in, one store into the head's link makes the task part of the ring. */
  lemma LinkCreating(middle: Memory, mem': Memory, s: State, t: Task)
    requires s.ring != [] && RecordAt(middle, s.ring, 0) && 4 * |middle| < WORD_LIMIT
    requires Disjoint(s.ring[0].node, s.ring[0].node + RECORD_WORDS, t.node, t.node + RECORD_WORDS)
    requires Disjoint(s.ring[0].node, s.ring[0].node + RECORD_WORDS, t.lo, t.hi)
    requires t.node + RECORD_WORDS <= |middle| && t.lo <= t.hi <= |middle| && 0 < t.node
    requires middle[t.node + 1] == t.pid && middle[t.node + 2] % 256 == TASK_READY && ImageAt(middle, t)
    requires middle[t.node + 3] == middle[s.ring[0].node + 3]
    requires mem' == middle[s.ring[0].node + 3 := 4 * t.node]
    ensures Creating(middle, mem', s, t)
  {
  }

  /** A task other than the running one keeps its structure. */
  lemma CreateKeepsRecord(mem: Memory, mem': Memory, s: State, t: Task, i: nat)
    requires 0 < i < |s.ring| && Apart(s.ring) && Creating(mem, mem', s, t) && RecordAt(mem, s.ring, i)
    ensures forall k: nat :: s.ring[i].node <= k < s.ring[i].node + RECORD_WORDS ==> mem'[k] == mem[k]
  {
    var u, c := s.ring[i].node, s.ring[0].node;
    assert Disjoint(u, u + RECORD_WORDS, c, c + RECORD_WORDS);
    assert forall k: nat :: u <= k < u + RECORD_WORDS ==> Belongs(s.ring[i], k);
  }

  function Inserted(ring: seq<Task>, t: Task): seq<Task>
    requires ring != []
  {
    [ring[0], t] + ring[1..]
  }

  /** `r` is the ring with `t` entered behind its head. */
  ghost predicate Insertion(ring: seq<Task>, t: Task, r: seq<Task>) {
    && ring != [] && |r| == |ring| + 1 && r[0] == ring[0] && r[1] == t
    && forall i :: 1 < i < |r| ==> r[i] == ring[i - 1]
  }

  lemma InsertionOf(ring: seq<Task>, t: Task)
    requires ring != []
    ensures Insertion(ring, t, Inserted(ring, t))
  {
  }

  lemma CreateHeadRecord(mem: Memory, mem': Memory, s: State, t: Task, r: seq<Task>)
    requires Insertion(s.ring, t, r) && Creating(mem, mem', s, t) && RecordAt(mem, s.ring, 0)
    ensures RecordAt(mem', r, 0)
  {
    var c := s.ring[0];
    assert Belongs(c, c.node + 1) && Belongs(c, c.node + 2);
  }

  lemma CreateNewRecord(mem: Memory, mem': Memory, s: State, t: Task, r: seq<Task>)
    requires Insertion(s.ring, t, r) && Creating(mem, mem', s, t) && RecordAt(mem, s.ring, 0)
    ensures RecordAt(mem', r, 1)
  {
    assert r[Succ(1, |r|)] == s.ring[Succ(0, |s.ring|)];
  }

  lemma CreateOldRecord(mem: Memory, mem': Memory, s: State, t: Task, r: seq<Task>, i: nat)
    requires Insertion(s.ring, t, r) && Creating(mem, mem', s, t) && Apart(s.ring)
    requires 1 < i < |r| && RecordAt(mem, s.ring, i - 1)
    ensures RecordAt(mem', r, i)
  {
    CreateKeepsRecord(mem, mem', s, t, i - 1);
    assert r[Succ(i, |r|)] == s.ring[Succ(i - 1, |s.ring|)];
  }

  lemma CreateHolds(mem: Memory, mem': Memory, esp: Word, s: State, t: Task)
    requires Holds(mem, esp, s) && Creating(mem, mem', s, t)
    requires Apart(Inserted(s.ring, t))
    ensures WellFormed(s) && Enabled(s, Created(t)) && Holds(mem', esp, Step(s, Created(t)))
  {
    HoldsWellFormed(mem, esp, s);
    var r := Inserted(s.ring, t);
    InsertionOf(s.ring, t);
    assert RecordAt(mem, s.ring, 0);
    forall i | 0 <= i < |r| ensures RecordAt(mem', r, i) {
      if i == 0 {
        CreateHeadRecord(mem, mem', s, t, r);
      } else if i == 1 {
        CreateNewRecord(mem, mem', s, t, r);
      } else {
        assert RecordAt(mem, s.ring, i - 1);
        CreateOldRecord(mem, mem', s, t, r, i);
      }
    }
    forall i | 0 < i < |r| ensures ImageAt(mem', r[i]) {
      if i > 1 {
        CreateKeepsImage(mem, mem', esp, s, t, i - 1);
      }
    }
    CreateKeepsStack(mem, mem', s, t, 0, s.stack);
  }

  /** The last store of a create: everything else of the new task is already in memory. */
  lemma LinkHolds(middle: Memory, mem': Memory, esp: Word, s: State, t: Task)
    requires Holds(middle, esp, s) && Apart(Inserted(s.ring, t))
    requires t.node + RECORD_WORDS <= |middle| && t.lo <= t.hi <= |middle| && 0 < t.node
    requires middle[t.node + 1] == t.pid && middle[t.node + 2] % 256 == TASK_READY && ImageAt(middle, t)
    requires s.ring[0].node + 3 < |middle| && middle[t.node + 3] == middle[s.ring[0].node + 3] && 4 * t.node < WORD_LIMIT
    requires mem' == middle[s.ring[0].node + 3 := 4 * t.node]
    ensures WellFormed(s) && Enabled(s, Created(t)) && Holds(mem', esp, Step(s, Created(t)))
  {
    assert RecordAt(middle, s.ring, 0);
    InsertionOf(s.ring, t);
    HeadApart(s.ring, t, Inserted(s.ring, t));
    LinkCreating(middle, mem', s, t);
    CreateHolds(middle, mem', esp, s, t);
  }

  lemma CreateKeepsStack(mem: Memory, mem': Memory, s: State, t: Task, i: nat, words: seq<Word>)
    requires i < |s.ring| && Apart(s.ring) && Creating(mem, mem', s, t)
    requires OnStack(mem, s.ring[i].lo, s.ring[i].hi, words)
    ensures OnStack(mem', s.ring[i].lo, s.ring[i].hi, words)
  {
    var u := s.ring[i];
    assert Disjoint(s.ring[0].node, s.ring[0].node + RECORD_WORDS, u.lo, u.hi);
    forall k | 0 <= k < |words| ensures mem'[u.hi - |words| + k] == words[k] {
      assert mem[u.hi - |words| + k] == words[k];
      assert Belongs(u, u.hi - |words| + k);
    }
  }

  lemma CreateKeepsImage(mem: Memory, mem': Memory, esp: Word, s: State, t: Task, i: nat)
    requires Holds(mem, esp, s) && 0 < i < |s.ring| && Creating(mem, mem', s, t)
    ensures ImageAt(mem', s.ring[i])
  {
    var u, c := s.ring[i], s.ring[0].node;
    assert ImageAt(mem, u) && RecordAt(mem, s.ring, i) && RecordAt(mem, s.ring, 0);
    CreateKeepsStack(mem, mem', s, t, i, u.image);
    assert Disjoint(u.node, u.node + RECORD_WORDS, c, c + RECORD_WORDS);
    assert Belongs(u, u.node);
  }

  /** The running task rewrites its own stack and moves its stack pointer. */
  lemma WorkHolds(mem: Memory, mem': Memory, esp: Word, s: State, regs: Regs, stack: seq<Word>)
    requires Holds(mem, esp, s) && |mem'| == |mem|
    requires OnStack(mem', s.ring[0].lo, s.ring[0].hi, stack)
    requires forall k: nat :: k < |mem| && !(s.ring[0].lo <= k < s.ring[0].hi) ==> mem'[k] == mem[k]
    ensures 0 <= 4 * (s.ring[0].hi - |stack|) < WORD_LIMIT
    ensures WellFormed(s) && Holds(mem', 4 * (s.ring[0].hi - |stack|), Step(s, Worked(regs, stack)))
  {
    HoldsWellFormed(mem, esp, s);
    var c := s.ring[0];
    forall i | 0 <= i < |s.ring|
      ensures RecordAt(mem', s.ring, i)
      ensures i > 0 ==> ImageAt(mem', s.ring[i])
    {
      var u := s.ring[i];
      assert RecordAt(mem, s.ring, i);
      assert Disjoint(u.node, u.node + RECORD_WORDS, c.lo, c.hi);
      if i > 0 {
        assert ImageAt(mem, u);
        assert Disjoint(u.lo, u.hi, c.lo, c.hi);
        forall k | 0 <= k < |u.image| ensures mem'[u.hi - |u.image| + k] == u.image[k] {
          assert mem[u.hi - |u.image| + k] == u.image[k];
        }
      }
    }
  }

  /** Writes outside every task's structure and stack change nothing. */
  lemma HoldsFrame(mem: Memory, mem': Memory, esp: Word, s: State)
    requires Holds(mem, esp, s) && |mem'| == |mem|
    requires forall i, k: nat :: 0 <= i < |s.ring| && Belongs(s.ring[i], k) && k < |mem| ==> mem'[k] == mem[k]
    ensures Holds(mem', esp, s)
  {
    forall i | 0 <= i < |s.ring|
      ensures RecordAt(mem', s.ring, i)
      ensures i > 0 ==> ImageAt(mem', s.ring[i])
    {
      var t := s.ring[i];
      assert RecordAt(mem, s.ring, i);
      assert Belongs(t, t.node) && Belongs(t, t.node + 1) && Belongs(t, t.node + 2) && Belongs(t, t.node + 3);
      if i > 0 {
        assert ImageAt(mem, t);
        StackFrame(mem, mem', t, t.image);
      }
    }
    StackFrame(mem, mem', s.ring[0], s.stack);
  }

  lemma StackFrame(mem: Memory, mem': Memory, t: Task, words: seq<Word>)
    requires OnStack(mem, t.lo, t.hi, words) && |mem'| == |mem|
    requires forall k: nat :: Belongs(t, k) && k < |mem| ==> mem'[k] == mem[k]
    ensures OnStack(mem', t.lo, t.hi, words)
  {
    forall k | 0 <= k < |words| ensures mem'[t.hi - |words| + k] == words[k] {
      assert Belongs(t, t.hi - |words| + k);
    }
  }

  lemma InsertApart(ring: seq<Task>, t: Task)
    requires ring != [] && Apart(ring)
    requires Disjoint(t.node, t.node + RECORD_WORDS, t.lo, t.hi)
    requires forall i :: 0 <= i < |ring| ==>
               && Disjoint(t.node, t.node + RECORD_WORDS, ring[i].node, ring[i].node + RECORD_WORDS)
               && Disjoint(t.lo, t.hi, ring[i].lo, ring[i].hi)
               && Disjoint(t.node, t.node + RECORD_WORDS, ring[i].lo, ring[i].hi)
               && Disjoint(ring[i].node, ring[i].node + RECORD_WORDS, t.lo, t.hi)
    ensures Apart(Inserted(ring, t))
  {
    var r := Inserted(ring, t);
    forall i, j | 0 <= i < |r| && 0 <= j < |r|
      ensures i != j ==> Disjoint(r[i].node, r[i].node + RECORD_WORDS, r[j].node, r[j].node + RECORD_WORDS)
      ensures i != j ==> Disjoint(r[i].lo, r[i].hi, r[j].lo, r[j].hi)
      ensures Disjoint(r[i].node, r[i].node + RECORD_WORDS, r[j].lo, r[j].hi)
    {
      var p, q := if i == 0 then 0 else i - 1, if j == 0 then 0 else j - 1;
      assert i != 1 ==> r[i] == ring[p];
      assert j != 1 ==> r[j] == ring[q];
    }
  }

  // ----- pids

  ghost predicate DistinctPids(ring: seq<Task>) {
    && (forall i :: 0 <= i < |ring| ==> ring[i].pid < |ring|)
    && (forall i, j :: 0 <= i < j < |ring| ==> ring[i].pid != ring[j].pid)
  }
}
