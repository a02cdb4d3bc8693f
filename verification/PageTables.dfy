/**
 The page tables as they lie in physical memory: what a walk finds, and what the two writes of `paging_map` do to it.
 */
module PageTables {
  import opened Words
  import opened Frames
  import opened PageModel

  /** Where the two static tables lie, and how much memory there is. */
  datatype Layout = Layout(directory: nat, firstTable: nat, frames: nat)

  function EntryIndex(frame: nat, i: nat): nat {
    frame * ENTRIES + i
  }

  function EntryAt(mem: Memory, frame: nat, i: nat): Word {
    if EntryIndex(frame, i) < |mem| then mem[EntryIndex(frame, i)] else 0
  }

  /** The frame of the table in directory slot `s`. */
  function TableOf(mem: Memory, l: Layout, s: nat): nat {
    EntryAt(mem, l.directory, s) / FRAME_SIZE
  }

  predicate SlotPresent(mem: Memory, l: Layout, s: nat) {
    EntryAt(mem, l.directory, s) % 2 == 1
  }

  /** The processor's walk: the leaf entry of a page, or nothing when either level is not present. */
  function Lookup(mem: Memory, l: Layout, page: nat): Option<Word> {
    if !SlotPresent(mem, l, page / ENTRIES) then None else
      var e := EntryAt(mem, TableOf(mem, l, page / ENTRIES), page % ENTRIES);
      if e % 2 == 0 then None else Some(e)
  }

  /** Directory slots 0 and 768 share the first page table. */
  predicate Window(s: nat) {
    s == 0 || s == KERNEL_SLOT
  }

  predicate SameTable(s: nat, t: nat) {
    s == t || (Window(s) && Window(t))
  }

  /** Two pages that share their leaf entry. */
  predicate Alias(p: nat, q: nat) {
    SameTable(p / ENTRIES, q / ENTRIES) && p % ENTRIES == q % ENTRIES
  }

  /** Tables lie in used frames of their own, except that slots 0 and 768 share the first one. */
  ghost predicate WellFormed(mem: Memory, l: Layout, free: set<nat>) {
    && |mem| == l.frames * ENTRIES && l.frames <= MAX_FRAMES
    && l.directory < l.frames && l.firstTable < l.frames && l.directory != l.firstTable
    && l.directory !in free && l.firstTable !in free
    && (forall s: nat :: s < ENTRIES && Window(s) ==> SlotPresent(mem, l, s) && TableOf(mem, l, s) == l.firstTable)
    && (forall s: nat :: s < ENTRIES && SlotPresent(mem, l, s) ==> TablePlaced(l, free, TableOf(mem, l, s)))
    && (forall s: nat, t: nat :: s < ENTRIES && t < ENTRIES && SharedTable(mem, l, s, t) ==> SameTable(s, t))
  }

  predicate SharedTable(mem: Memory, l: Layout, s: nat, t: nat) {
    SlotPresent(mem, l, s) && SlotPresent(mem, l, t) && TableOf(mem, l, s) == TableOf(mem, l, t)
  }

  predicate TablePlaced(l: Layout, free: set<nat>, f: nat) {
    f < l.frames && f != l.directory && f !in free
  }

  ghost function PresentSlots(mem: Memory, l: Layout, n: nat): nat {
    if n == 0 then 0 else PresentSlots(mem, l, n - 1) + (if SlotPresent(mem, l, n - 1) then 1 else 0)
  }

  // ----- the two writes

  function WriteEntry(mem: Memory, frame: nat, i: nat, e: Word): Memory
    requires EntryIndex(frame, i) < |mem|
  {
    mem[EntryIndex(frame, i) := e]
  }

  lemma EntryApart(frame: nat, i: nat, other: nat, j: nat)
    requires i < ENTRIES && j < ENTRIES
    ensures EntryIndex(frame, i) == EntryIndex(other, j) <==> frame == other && i == j
  {
  }

  lemma InMemory(mem: Memory, l: Layout, frame: nat, i: nat)
    requires |mem| == l.frames * ENTRIES && frame < l.frames && i < ENTRIES
    ensures EntryIndex(frame, i) < |mem|
  {
  }

  /** Writing a present leaf entry changes the page it is for and its alias, and nothing else. */
  lemma WriteLeaf(mem: Memory, l: Layout, free: set<nat>, page: nat, e: Word)
    requires WellFormed(mem, l, free) && page < PAGES && SlotPresent(mem, l, page / ENTRIES) && e % 2 == 1
    ensures EntryIndex(TableOf(mem, l, page / ENTRIES), page % ENTRIES) < |mem|
    ensures var mem' := WriteEntry(mem, TableOf(mem, l, page / ENTRIES), page % ENTRIES, e);
            && WellFormed(mem', l, free)
            && (forall s: nat :: s < ENTRIES ==> EntryAt(mem', l.directory, s) == EntryAt(mem, l.directory, s))
            && (forall p: nat :: p < PAGES ==> Lookup(mem', l, p) == if Alias(p, page) then Some(e) else Lookup(mem, l, p))
  {
    var table := TableOf(mem, l, page / ENTRIES);
    assert TablePlaced(l, free, table);
    InMemory(mem, l, table, page % ENTRIES);
    var mem' := WriteEntry(mem, table, page % ENTRIES, e);
    forall s: nat | s < ENTRIES ensures EntryAt(mem', l.directory, s) == EntryAt(mem, l.directory, s) {
      EntryApart(l.directory, s, table, page % ENTRIES);
    }
    forall s: nat | s < ENTRIES
      ensures SlotPresent(mem', l, s) == SlotPresent(mem, l, s) && TableOf(mem', l, s) == TableOf(mem, l, s)
    {
      assert EntryAt(mem', l.directory, s) == EntryAt(mem, l.directory, s);
    }
    forall p: nat | p < PAGES
      ensures Lookup(mem', l, p) == if Alias(p, page) then Some(e) else Lookup(mem, l, p)
    {
      EntryApart(TableOf(mem, l, p / ENTRIES), p % ENTRIES, table, page % ENTRIES);
    }
  }

  /** Memory after frame `f` has been cleared and entered in slot `s`. */
  ghost predicate TableAdded(mem: Memory, mem': Memory, l: Layout, s: nat, f: nat) {
    && |mem'| == |mem|
    && (forall i: nat :: i < ENTRIES ==> EntryAt(mem', f, i) == 0)
    && (forall t: nat :: t < ENTRIES && t != s ==> EntryAt(mem', l.directory, t) == EntryAt(mem, l.directory, t))
    && EntryAt(mem', l.directory, s) == f * FRAME_SIZE + 3
    && (forall g: nat, i: nat :: i < ENTRIES && g != f && g != l.directory ==> EntryAt(mem', g, i) == EntryAt(mem, g, i))
  }

  /** Entering an empty table in an empty slot maps nothing and unmaps nothing. */
  lemma AddTable(mem: Memory, mem': Memory, l: Layout, free: set<nat>, s: nat, f: nat)
    requires WellFormed(mem, l, free) && s < ENTRIES && !SlotPresent(mem, l, s)
    requires f in free && f < l.frames && TableAdded(mem, mem', l, s, f)
    ensures WellFormed(mem', l, free - {f})
    ensures SlotPresent(mem', l, s) && TableOf(mem', l, s) == f
    ensures forall p: nat :: p < PAGES ==> Lookup(mem', l, p) == Lookup(mem, l, p)
    ensures PresentSlots(mem', l, ENTRIES) == PresentSlots(mem, l, ENTRIES) + 1
  {
    SlotsAfterAdd(mem, mem', l, s, f);
    AddKeepsTables(mem, mem', l, free, s, f);
    forall p: nat | p < PAGES ensures Lookup(mem', l, p) == Lookup(mem, l, p) {
      AddKeepsPage(mem, mem', l, free, s, f, p);
    }
    PresentSlotsAdd(mem, mem', l, s, ENTRIES);
  }

  lemma SlotsAfterAdd(mem: Memory, mem': Memory, l: Layout, s: nat, f: nat)
    requires s < ENTRIES && TableAdded(mem, mem', l, s, f)
    ensures SlotPresent(mem', l, s) && TableOf(mem', l, s) == f
    ensures forall t: nat :: t < ENTRIES && t != s ==>
              SlotPresent(mem', l, t) == SlotPresent(mem, l, t) && TableOf(mem', l, t) == TableOf(mem, l, t)
  {
  }

  lemma AddKeepsPage(mem: Memory, mem': Memory, l: Layout, free: set<nat>, s: nat, f: nat, p: nat)
    requires WellFormed(mem, l, free) && s < ENTRIES && !SlotPresent(mem, l, s) && p < PAGES
    requires f in free && f < l.frames && TableAdded(mem, mem', l, s, f)
    ensures Lookup(mem', l, p) == Lookup(mem, l, p)
  {
    SlotsAfterAdd(mem, mem', l, s, f);
    var t := p / ENTRIES;
    if SlotPresent(mem, l, t) {
      assert TablePlaced(l, free, TableOf(mem, l, t));
    }
  }

  /** The new table is in a frame of its own, because the frame was free and tables' frames are not. */
  lemma AddKeepsTables(mem: Memory, mem': Memory, l: Layout, free: set<nat>, s: nat, f: nat)
    requires WellFormed(mem, l, free) && s < ENTRIES && !SlotPresent(mem, l, s)
    requires f in free && f < l.frames && TableAdded(mem, mem', l, s, f)
    ensures WellFormed(mem', l, free - {f})
  {
    SlotsAfterAdd(mem, mem', l, s, f);
    assert !Window(s);
    forall t: nat | t < ENTRIES && SlotPresent(mem', l, t) ensures TablePlaced(l, free - {f}, TableOf(mem', l, t)) {
      if t != s {
        assert TablePlaced(l, free, TableOf(mem, l, t));
      }
    }
    forall t: nat, u: nat | t < ENTRIES && u < ENTRIES && SharedTable(mem', l, t, u) ensures SameTable(t, u) {
      assert t != s && SlotPresent(mem, l, t) ==> TablePlaced(l, free, TableOf(mem, l, t));
      assert u != s && SlotPresent(mem, l, u) ==> TablePlaced(l, free, TableOf(mem, l, u));
      if t != s && u != s {
        assert SharedTable(mem, l, t, u);
      }
    }
  }

  lemma {:induction false} PresentSlotsAdd(mem: Memory, mem': Memory, l: Layout, s: nat, n: nat)
    requires forall t: nat :: t < n && t != s ==> SlotPresent(mem', l, t) == SlotPresent(mem, l, t)
    requires !SlotPresent(mem, l, s) && SlotPresent(mem', l, s)
    ensures PresentSlots(mem', l, n) == PresentSlots(mem, l, n) + (if s < n then 1 else 0)
  {
    if n > 0 {
      PresentSlotsAdd(mem, mem', l, s, n - 1);
    }
  }

  lemma {:induction false} PresentSlotsSame(mem: Memory, mem': Memory, l: Layout, n: nat)
    requires forall t: nat :: t < n ==> EntryAt(mem', l.directory, t) == EntryAt(mem, l.directory, t)
    ensures PresentSlots(mem', l, n) == PresentSlots(mem, l, n)
  {
    if n > 0 {
      PresentSlotsSame(mem, mem', l, n - 1);
    }
  }
}
