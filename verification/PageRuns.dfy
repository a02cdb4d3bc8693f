/**
 Runs of paging_map, on a flat address space: what each page translates to, which directory slots have a table and where,
 and which frames are free.  How a call ends depends on nothing else.
 */
module PageRuns {
  import opened Words
  import opened Bits
  import opened Frames
  import opened PageModel
  import opened PageTables

  datatype MapOutcome = Mapped | OutOfFrames | PageFault(frame: nat) | Misdirected(frame: nat)

  datatype MapCall = MapCall(virt: Word, phys: Word, flags: Word)

  /** A call's effect and how it ends; a run's, with the number of calls that completed. */
  datatype Result = Result(space: Space, outcome: MapOutcome)

  datatype Ending = Ending(space: Space, done: nat, outcome: MapOutcome)

  datatype Space = Space(entries: seq<Option<Word>>, tables: seq<Option<nat>>, free: set<nat>)

  ghost predicate Sized(a: Space) {
    |a.entries| == PAGES && |a.tables| == ENTRIES
  }

  function Slot(virt: Word): nat {
    PageOf(virt) / ENTRIES
  }

  /** How an access to frame `f`, at the virtual address equal to its physical one, ends. */
  function Reach(a: Space, f: nat): MapOutcome {
    if f >= |a.entries| || a.entries[f].None? then PageFault(f)
    else if a.entries[f].value / FRAME_SIZE == f then Mapped else Misdirected(f)
  }

  /** The flat space that the tables in memory stand for. */
  ghost function SpaceOf(mem: Memory, l: Layout, free: set<nat>): (a: Space)
    ensures Sized(a)
  {
    Space(seq(PAGES, p requires 0 <= p < PAGES => Lookup(mem, l, p)),
          seq(ENTRIES, s requires 0 <= s < ENTRIES => if SlotPresent(mem, l, s) then Some(TableOf(mem, l, s)) else None),
          free)
  }

  // ----- one call

  /** A new table for slot `s` goes to the lowest free frame. */
  ghost function TableStep(a: Space, s: nat): Result
    requires Sized(a) && s < ENTRIES
  {
    if a.free == {} then Result(a, OutOfFrames) else
      var f := LowestOf(a.free);
      if Reach(a, f) != Mapped then Result(a.(free := a.free - {f}), Reach(a, f))
      else Result(Space(a.entries, a.tables[s := Some(f)], a.free - {f}), Mapped)
  }

  function Remapped(a: Space, c: MapCall): Space {
    a.(entries := seq(|a.entries|, p requires 0 <= p < |a.entries| =>
      if Alias(p, PageOf(c.virt)) then Some(LeafEntry(c.phys, c.flags)) else a.entries[p]))
  }

  ghost function WriteStep(a: Space, c: MapCall): Result
    requires Sized(a) && a.tables[Slot(c.virt)].Some?
  {
    var table := a.tables[Slot(c.virt)].value;
    if Reach(a, table) != Mapped then Result(a, Reach(a, table)) else Result(Remapped(a, c), Mapped)
  }

  ghost function MapStep(a: Space, directory: nat, c: MapCall): (z: Result)
    requires Sized(a)
    ensures Sized(z.space) && (z.outcome != Mapped ==> z.space.entries == a.entries)
  {
    if Reach(a, directory) != Mapped then Result(a, Reach(a, directory))
    else if a.tables[Slot(c.virt)].Some? then WriteStep(a, c)
    else
      var b := TableStep(a, Slot(c.virt));
      if b.outcome != Mapped then b else WriteStep(b.space, c)
  }

  // ----- runs

  /** The calls up to and including the first that does not complete. */
  ghost function MapRun(a: Space, directory: nat, calls: seq<MapCall>): (z: Ending)
    requires Sized(a)
    ensures Sized(z.space) && z.done <= |calls| && (z.outcome == Mapped <==> z.done == |calls|)
    decreases calls
  {
    if calls == [] then Ending(a, 0, Mapped) else
      var b := MapStep(a, directory, calls[0]);
      if b.outcome != Mapped then Ending(b.space, 0, b.outcome) else
        var z := MapRun(b.space, directory, calls[1..]);
        Ending(z.space, z.done + 1, z.outcome)
  }

  /** What the last call for page `p` or its alias stored, or `before` when there was none. */
  function Last(calls: seq<MapCall>, p: nat, before: Option<Word>): Option<Word> {
    if calls == [] then before else
      var c := calls[|calls| - 1];
      if Alias(p, PageOf(c.virt)) then Some(LeafEntry(c.phys, c.flags)) else Last(calls[..|calls| - 1], p, before)
  }

  lemma {:induction false} LastAfterFirst(calls: seq<MapCall>, p: nat, before: Option<Word>)
    requires calls != []
    ensures Last(calls, p, before) ==
            Last(calls[1..], p, if Alias(p, PageOf(calls[0].virt)) then Some(LeafEntry(calls[0].phys, calls[0].flags)) else before)
    decreases calls
  {
    if |calls| > 1 {
      var front := calls[..|calls| - 1];
      LastAfterFirst(front, p, before);
      assert front[1..] == calls[1..][..|calls| - 2] && front[0] == calls[0];
    }
  }

  /** Each page translates as the last completed call for it, or for its alias, said. */
  lemma {:induction false} LastCallWins(a: Space, directory: nat, calls: seq<MapCall>, p: nat)
    requires Sized(a) && p < PAGES
    ensures var z := MapRun(a, directory, calls); z.space.entries[p] == Last(calls[..z.done], p, a.entries[p])
    decreases calls
  {
    if calls != [] {
      var b := MapStep(a, directory, calls[0]);
      if b.outcome == Mapped {
        LastCallWins(b.space, directory, calls[1..], p);
        var n := MapRun(b.space, directory, calls[1..]).done;
        LastAfterFirst(calls[..n + 1], p, a.entries[p]);
        assert calls[..n + 1][1..] == calls[1..][..n];
      }
    }
  }

  /** Slots below `n` that have a table. */
  ghost function Tables(tables: seq<Option<nat>>, n: nat): nat
    requires n <= |tables|
  {
    if n == 0 then 0 else Tables(tables, n - 1) + (if tables[n - 1].Some? then 1 else 0)
  }

  lemma {:induction false} TablesAreSlots(mem: Memory, l: Layout, free: set<nat>, n: nat)
    requires n <= ENTRIES
    ensures Tables(SpaceOf(mem, l, free).tables, n) == PresentSlots(mem, l, n)
  {
    if n > 0 {
      TablesAreSlots(mem, l, free, n - 1);
    }
  }

  lemma {:induction false} TablesAdd(tables: seq<Option<nat>>, s: nat, f: nat, n: nat)
    requires s < |tables| && n <= |tables| && tables[s].None?
    ensures Tables(tables[s := Some(f)], n) == Tables(tables, n) + (if s < n then 1 else 0)
  {
    if n > 0 {
      TablesAdd(tables, s, f, n - 1);
    }
  }

  /** A run that completes turns free frames into tables, one for one. */
  lemma {:induction false} RunConserves(a: Space, directory: nat, calls: seq<MapCall>)
    requires Sized(a)
    ensures var z := MapRun(a, directory, calls);
            z.outcome == Mapped ==>
              |z.space.free| + Tables(z.space.tables, ENTRIES) == |a.free| + Tables(a.tables, ENTRIES)
    decreases calls
  {
    if calls != [] {
      var b := MapStep(a, directory, calls[0]);
      if b.outcome == Mapped {
        StepConserves(a, directory, calls[0]);
        RunConserves(b.space, directory, calls[1..]);
      }
    }
  }

  lemma StepConserves(a: Space, directory: nat, c: MapCall)
    requires Sized(a)
    ensures var b := MapStep(a, directory, c);
            b.outcome == Mapped ==>
              |b.space.free| + Tables(b.space.tables, ENTRIES) == |a.free| + Tables(a.tables, ENTRIES)
  {
    if a.tables[Slot(c.virt)].None? && a.free != {} {
      TablesAdd(a.tables, Slot(c.virt), LowestOf(a.free), ENTRIES);
    }
  }

  /**
   The entry of the last call stores that call's flags, and points to that call's frame exactly when the flags set no
   frame bit that the address lacks.
   */
  lemma LastIs(calls: seq<MapCall>, p: nat, before: Option<Word>)
    requires calls != [] && Alias(p, PageOf(calls[|calls| - 1].virt))
    ensures var c := calls[|calls| - 1];
            && Last(calls, p, before).Some?
            && Last(calls, p, before).value % FRAME_SIZE == Or(c.flags % FRAME_SIZE, PAGE_PRESENT)
            && (Last(calls, p, before).value / FRAME_SIZE == c.phys / FRAME_SIZE
                <==> And(c.phys / FRAME_SIZE, c.flags / FRAME_SIZE) == c.flags / FRAME_SIZE)
            && (c.flags < FRAME_SIZE ==> Last(calls, p, before).value / FRAME_SIZE == c.phys / FRAME_SIZE)
  {
    var c := calls[|calls| - 1];
    LeafEntryIs(c.phys, c.flags);
    LeafFrameIff(c.phys, c.flags);
  }

  ghost function LowestOf(free: set<nat>): (f: nat)
    requires free != {}
    ensures f in free && forall g :: g in free ==> f <= g
  {
    var x :| x in free;
    LowestExists(free, x + 1);
    var f :| f in free && forall g :: g in free ==> f <= g;
    f
  }

  lemma {:induction false} LowestExists(free: set<nat>, n: nat)
    requires exists x :: x in free && x < n
    ensures exists f :: f in free && forall g :: g in free ==> f <= g
  {
    if exists x :: x in free && x < n - 1 {
      LowestExists(free, n - 1);
    } else {
      assert n - 1 in free;
    }
  }

  // ----- when a run completes

  /** The low 4 MB are mapped to themselves, and the directory and all tables lie there. */
  ghost predicate LowMapped(a: Space, directory: nat) {
    && Sized(a) && directory < ENTRIES
    && (forall p: nat :: p < ENTRIES ==> Reach(a, p) == Mapped)
    && (forall s: nat :: s < ENTRIES && a.tables[s].Some? ==> a.tables[s].value < ENTRIES)
  }

  function Target(c: MapCall): nat {
    LeafEntry(c.phys, c.flags) / FRAME_SIZE
  }

  /** A call for the low 4 MB or the kernel window maps to the frame already there. */
  predicate KeepsLow(c: MapCall) {
    Window(Slot(c.virt)) ==> Target(c) == PageOf(c.virt) % ENTRIES
  }

  /** A call for any other page does not map it to its own frame. */
  predicate NotIdentity(c: MapCall) {
    !Window(Slot(c.virt)) ==> Target(c) != PageOf(c.virt)
  }

  ghost function LowFrames(free: set<nat>): set<nat> {
    set f | f in free && f < ENTRIES
  }

  /** The directory slots that the calls need and that have no table yet. */
  ghost function Missing(tables: seq<Option<nat>>, calls: seq<MapCall>): set<nat>
    requires |tables| == ENTRIES
  {
    set c | c in calls && tables[Slot(c.virt)].None? :: Slot(c.virt)
  }

  /** No free frame beyond the low 4 MB is mapped to itself. */
  ghost predicate HighUnreachable(a: Space) {
    forall f :: f in a.free && f >= ENTRIES ==> Reach(a, f) != Mapped
  }

  lemma MissingFirst(tables: seq<Option<nat>>, calls: seq<MapCall>, after: seq<Option<nat>>)
    requires |tables| == ENTRIES && calls != [] && |after| == ENTRIES
    requires after[Slot(calls[0].virt)].Some?
    requires forall s: nat :: s < ENTRIES && s != Slot(calls[0].virt) ==> after[s].None? == tables[s].None?
    ensures Missing(after, calls[1..]) == Missing(tables, calls) - {Slot(calls[0].virt)}
  {
    var s := Slot(calls[0].virt);
    forall t | t in Missing(tables, calls) - {s} ensures t in Missing(after, calls[1..]) {
      var c :| c in calls && tables[Slot(c.virt)].None? && Slot(c.virt) == t;
      assert c in calls[1..];
    }
  }

  lemma WriteKeepsLow(a: Space, directory: nat, c: MapCall)
    requires LowMapped(a, directory) && KeepsLow(c) && a.tables[Slot(c.virt)].Some?
    ensures WriteStep(a, c) == Result(Remapped(a, c), Mapped) && LowMapped(Remapped(a, c), directory)
    ensures HighUnreachable(a) && NotIdentity(c) ==> HighUnreachable(Remapped(a, c))
  {
    var b := Remapped(a, c);
    forall p: nat | p < ENTRIES ensures Reach(b, p) == Mapped {
      assert Reach(a, p) == Mapped;
    }
    if HighUnreachable(a) && NotIdentity(c) {
      forall f | f in b.free && f >= ENTRIES ensures Reach(b, f) != Mapped {
        assert Reach(a, f) != Mapped;
      }
    }
  }

  lemma LowFrameNext(free: set<nat>)
    requires free != {} && LowestOf(free) < ENTRIES
    ensures LowFrames(free - {LowestOf(free)}) == LowFrames(free) - {LowestOf(free)}
    ensures |LowFrames(free - {LowestOf(free)})| == |LowFrames(free)| - 1
  {
    assert LowestOf(free) in LowFrames(free);
    assert LowFrames(free - {LowestOf(free)}) == LowFrames(free) - {LowestOf(free)};
  }

  /** One call of such a run: it completes unless it needs a table and no low frame is free. */
  lemma LowStep(a: Space, directory: nat, calls: seq<MapCall>)
    requires LowMapped(a, directory) && calls != [] && KeepsLow(calls[0])
    ensures var (b, r) := (MapStep(a, directory, calls[0]).space, MapStep(a, directory, calls[0]).outcome);
            var needs := a.tables[Slot(calls[0].virt)].None?;
            && (needs && LowFrames(a.free) != {} ==> r == Mapped)
            && (!needs ==> r == Mapped)
            && (r == Mapped && (!needs || LowFrames(a.free) != {}) ==>
                  && LowMapped(b, directory)
                  && (HighUnreachable(a) && NotIdentity(calls[0]) ==> HighUnreachable(b))
                  && |LowFrames(b.free)| == |LowFrames(a.free)| - (if needs then 1 else 0)
                  && |Missing(b.tables, calls[1..])| == |Missing(a.tables, calls)| - (if needs then 1 else 0))
            && (needs && LowFrames(a.free) == {} && HighUnreachable(a) ==> r != Mapped)
  {
    var c := calls[0];
    var s := Slot(c.virt);
    if a.tables[s].Some? {
      WriteKeepsLow(a, directory, c);
      MissingFirst(a.tables, calls, a.tables);
      assert s !in Missing(a.tables, calls);
    } else if a.free != {} {
      var f := LowestOf(a.free);
      if LowFrames(a.free) != {} {
        var g :| g in LowFrames(a.free);
        assert f <= g < ENTRIES;
        var b := Space(a.entries, a.tables[s := Some(f)], a.free - {f});
        assert TableStep(a, s) == Result(b, Mapped);
        TableKeepsLow(a, directory, s, f);
        WriteKeepsLow(b, directory, c);
        MissingFirst(a.tables, calls, b.tables);
        assert c in calls && s in Missing(a.tables, calls);
        LowFrameNext(a.free);
      } else {
        assert f !in LowFrames(a.free);
      }
    }
  }

  lemma TableKeepsLow(a: Space, directory: nat, s: nat, f: nat)
    requires LowMapped(a, directory) && s < ENTRIES && f < ENTRIES
    ensures var b := Space(a.entries, a.tables[s := Some(f)], a.free - {f});
            LowMapped(b, directory) && (HighUnreachable(a) ==> HighUnreachable(b))
  {
    var b := Space(a.entries, a.tables[s := Some(f)], a.free - {f});
    forall p: nat ensures Reach(b, p) == Reach(a, p) {
    }
  }

  /** Enough free frames below 4 MB for the tables that the calls need: every call completes. */
  lemma {:induction false} LowRunCompletes(a: Space, directory: nat, calls: seq<MapCall>)
    requires LowMapped(a, directory) && forall c :: c in calls ==> KeepsLow(c)
    requires |LowFrames(a.free)| >= |Missing(a.tables, calls)|
    ensures MapRun(a, directory, calls).outcome == Mapped && LowMapped(MapRun(a, directory, calls).space, directory)
    decreases calls
  {
    if calls != [] {
      assert calls[0] in calls;
      if a.tables[Slot(calls[0].virt)].None? {
        assert Slot(calls[0].virt) in Missing(a.tables, calls);
      }
      LowStep(a, directory, calls);
      LowRunCompletes(MapStep(a, directory, calls[0]).space, directory, calls[1..]);
    }
  }

  /**
   And no fewer will do, as long as no page beyond the low 4 MB is mapped to its own frame: a run completes if and only
   if the tables it needs are at most the free frames below 4 MB.
   */
  lemma {:induction false} LowRunCompletesIff(a: Space, directory: nat, calls: seq<MapCall>)
    requires LowMapped(a, directory) && HighUnreachable(a)
    requires forall c :: c in calls ==> KeepsLow(c) && NotIdentity(c)
    ensures MapRun(a, directory, calls).outcome == Mapped <==> |LowFrames(a.free)| >= |Missing(a.tables, calls)|
    decreases calls
  {
    if calls == [] {
      assert Missing(a.tables, calls) == {};
    } else if |LowFrames(a.free)| >= |Missing(a.tables, calls)| {
      LowRunCompletes(a, directory, calls);
    } else {
      assert calls[0] in calls;
      LowStep(a, directory, calls);
      var b := MapStep(a, directory, calls[0]);
      if b.outcome == Mapped {
        LowRunCompletesIff(b.space, directory, calls[1..]);
      }
    }
  }
}
