/**
 paging_init and paging_map of mm/paging.c, over physical memory and the frame allocator.

 After paging_init the kernel itself runs under translation, so `paging_map` reaches the directory and the tables
 through the mapping it is changing: a table at physical address `a` is accessed at virtual address `a`.  The access
 works when that page is mapped to its own frame, faults when it is not mapped, and goes to some other frame when it
 is mapped elsewhere; a call that meets one of the last two never completes as intended, and the model stops there.
 */
module Paging {
  import opened Words
  import opened Bits
  import opened Frames
  import opened PageModel
  import opened PageTables
  import opened PageRuns
  import opened FrameRuns

  class AddressSpace {
    const memory: array<Word>
    const layout: Layout
    const pmm: FrameAllocator

    ghost predicate Valid()
      reads this, memory, pmm, pmm.bitmap
    {
      && pmm.Valid() && pmm.totalFrames == layout.frames && memory != pmm.bitmap
      && WellFormed(memory[..], layout, pmm.free)
    }

    /** What the processor finds for a page. */
    function Walk(page: nat): Option<Word>
      reads memory
    {
      Lookup(memory[..], layout, page)
    }

    /** The translations and tables that paging_init leaves. */
    ghost predicate Fresh()
      reads memory
    {
      && (forall p: nat :: p < PAGES ==>
            Walk(p) == if Window(p / ENTRIES) then Some(p % ENTRIES * FRAME_SIZE + 3) else None)
      && (forall s: nat :: s < ENTRIES ==> (SlotPresent(memory[..], layout, s) <==> Window(s)))
    }

    /** paging_init: `page_directory` and `first_page_table` are static, so their frames are in use. */
    constructor (memory: array<Word>, layout: Layout, pmm: FrameAllocator)
      requires pmm.Valid() && pmm.totalFrames == layout.frames && memory != pmm.bitmap
      requires memory.Length == layout.frames * ENTRIES
      requires layout.directory < layout.frames && layout.firstTable < layout.frames
      requires layout.directory != layout.firstTable
      requires layout.directory !in pmm.free && layout.firstTable !in pmm.free
      modifies memory
      ensures this.memory == memory && this.layout == layout && this.pmm == pmm
      ensures Valid() && Fresh()
    {
      this.memory := memory;
      this.layout := layout;
      this.pmm := pmm;
      new;
      var d, t := layout.directory * ENTRIES, layout.firstTable * ENTRIES;
      for i := 0 to ENTRIES
        invariant forall k :: d <= k < d + i ==> memory[k] == 0
      {
        memory[d + i] := 0;
        memory[t + i] := 0;
      }
      for i := 0 to ENTRIES
        invariant forall k :: d <= k < d + ENTRIES ==> memory[k] == 0
        invariant forall k :: t <= k < t + i ==> memory[k] == (k - t) * FRAME_SIZE + 3
      {
        DirEntryIs(i);
        memory[t + i] := Or(Or(i * FRAME_SIZE, PAGE_PRESENT), PAGE_WRITABLE);
      }
      DirEntryIs(layout.firstTable);
      memory[d] := Or(Or(layout.firstTable * FRAME_SIZE, PAGE_PRESENT), PAGE_WRITABLE);
      memory[d + KERNEL_SLOT] := Or(Or(layout.firstTable * FRAME_SIZE, PAGE_PRESENT), PAGE_WRITABLE);
      InitialTables(memory[..], layout, pmm.free);
    }

    /** The flat address space that memory and the frame allocator stand for. */
    ghost function View(): (a: Space)
      reads memory, pmm
      ensures Sized(a)
    {
      SpaceOf(memory[..], layout, pmm.free)
    }

    /** How an access to the structure in frame `frame`, at the virtual address equal to its physical one, ends. */
    function Access(frame: nat): (r: MapOutcome)
      requires frame < PAGES
      reads memory
      ensures r == Reach(SpaceOf(memory[..], layout, {}), frame)
    {
      match Walk(frame)
      case None => PageFault(frame)
      case Some(e) => if e / FRAME_SIZE == frame then Mapped else Misdirected(frame)
    }

    /** `memset(new_table, 0, PAGE_SIZE)`, a word at a time */
    method ClearFrame(f: nat)
      requires f < layout.frames && memory.Length == layout.frames * ENTRIES
      modifies memory
      ensures forall k :: 0 <= k < memory.Length ==>
                memory[k] == if f * ENTRIES <= k < f * ENTRIES + ENTRIES then 0 else old(memory[k])
    {
      for i := 0 to ENTRIES
        invariant forall k :: 0 <= k < memory.Length ==>
                    memory[k] == if f * ENTRIES <= k < f * ENTRIES + i then 0 else old(memory[k])
      {
        memory[f * ENTRIES + i] := 0;
      }
    }

    /** Clears frame `f` and enters it in slot `s` of the directory. */
    method InstallTable(s: nat, f: nat)
      requires memory.Length == layout.frames * ENTRIES && layout.frames <= MAX_FRAMES
      requires s < ENTRIES && f < layout.frames && layout.directory < layout.frames && f != layout.directory
      modifies memory
      ensures TableAdded(old(memory[..]), memory[..], layout, s, f)
    {
      ClearFrame(f);
      DirEntryIs(f);
      memory[layout.directory * ENTRIES + s] := Or(Or(f * FRAME_SIZE, PAGE_PRESENT), PAGE_WRITABLE);
    }

    /** The branch of paging_map that allocates a table for slot `s`. */
    method NewTable(s: nat) returns (r: MapOutcome)
      requires Valid() && s < ENTRIES && !SlotPresent(memory[..], layout, s)
      modifies memory, pmm`freeCount, pmm`free, pmm.bitmap
      ensures Valid()
      ensures Result(View(), r) == TableStep(old(View()), s)
      ensures r == Mapped ==>
                && SlotPresent(memory[..], layout, s)
                && |pmm.free| + PresentSlots(memory[..], layout, ENTRIES)
                   == old(|pmm.free| + PresentSlots(memory[..], layout, ENTRIES))
    {
      var a := pmm.AllocFrame();
      if a == Panicked {
        return OutOfFrames;
      }
      var f := a.value / FRAME_SIZE;
      FewerFree(memory[..], layout, old(pmm.free), f);
      assert f == LowestOf(old(pmm.free));
      r := Access(f);
      if r != Mapped {
        return;
      }
      InstallTable(s, f);
      AddTable(old(memory[..]), memory[..], layout, old(pmm.free), s, f);
      TableView(old(memory[..]), memory[..], layout, old(pmm.free), s, f);
    }

    /** paging_map, once the directory slot has a table: write the leaf entry. */
    method WriteMapping(virt: Word, phys: Word, flags: Word) returns (r: MapOutcome)
      requires Valid() && SlotPresent(memory[..], layout, Slot(virt))
      modifies memory
      ensures Valid()
      ensures Result(View(), r) == WriteStep(old(View()), MapCall(virt, phys, flags))
      ensures PresentSlots(memory[..], layout, ENTRIES) == old(PresentSlots(memory[..], layout, ENTRIES))
    {
      Indices(virt);
      var entry := memory[layout.directory * ENTRIES + DirIndex(virt)];
      MaskFrame(entry);
      var table := And(entry, FRAME_MASK) / FRAME_SIZE;
      assert table == TableOf(memory[..], layout, Slot(virt));
      r := Access(table);
      if r != Mapped {
        return;
      }
      LeafEntryIs(phys, flags);
      WriteLeaf(memory[..], layout, pmm.free, PageOf(virt), LeafEntry(phys, flags));
      memory[table * ENTRIES + TableIndex(virt)] := LeafEntry(phys, flags);
      assert memory[..] == WriteEntry(old(memory[..]), table, PageOf(virt) % ENTRIES, LeafEntry(phys, flags));
      PresentSlotsSame(old(memory[..]), memory[..], layout, ENTRIES);
      WriteView(old(memory[..]), memory[..], layout, pmm.free, MapCall(virt, phys, flags));
    }

    method PagingMap(virt: Word, phys: Word, flags: Word) returns (r: MapOutcome)
      requires Valid()
      modifies memory, pmm`freeCount, pmm`free, pmm.bitmap
      ensures Valid()
      ensures Result(View(), r) == MapStep(old(View()), layout.directory, MapCall(virt, phys, flags))
      ensures r == Mapped ==>
                |pmm.free| + PresentSlots(memory[..], layout, ENTRIES)
                == old(|pmm.free| + PresentSlots(memory[..], layout, ENTRIES))
    {
      Indices(virt);
      r := Access(layout.directory);
      if r != Mapped {
        return;
      }
      var entry := memory[layout.directory * ENTRIES + DirIndex(virt)];
      PresentIsOdd(entry);
      assert Present(entry) <==> SlotPresent(memory[..], layout, Slot(virt));
      if !Present(entry) {
        r := NewTable(DirIndex(virt));
        if r != Mapped {
          return;
        }
      }
      r := WriteMapping(virt, phys, flags);
    }

    /** After a call the page and its alias have the new entry, if the call completed, and no other page has changed. */
    lemma CallChanges(a: Space, c: MapCall, p: nat)
      requires Sized(a) && p < PAGES
      ensures var b := MapStep(a, layout.directory, c);
              b.space.entries[p] == if b.outcome == Mapped && Alias(p, PageOf(c.virt)) then Some(LeafEntry(c.phys, c.flags)) else a.entries[p]
    {
    }

    /**
     Any run of paging_map calls is the flat run, up to the first call that does not complete: `n` calls do, each page
     then translates as the last of them for it, or for its alias, said, and frames are conserved.
     */
    method MapAll(calls: seq<MapCall>) returns (n: nat, r: MapOutcome)
      requires Valid()
      modifies memory, pmm`freeCount, pmm`free, pmm.bitmap
      ensures Valid() && n <= |calls|
      ensures Ending(View(), n, r) == MapRun(old(View()), layout.directory, calls)
      ensures forall p: nat :: p < PAGES ==> Walk(p) == Last(calls[..n], p, old(Walk(p)))
      ensures r == Mapped ==>
                |pmm.free| + PresentSlots(memory[..], layout, ENTRIES)
                == old(|pmm.free| + PresentSlots(memory[..], layout, ENTRIES))
    {
      ghost var a := View();
      TablesAreSlots(memory[..], layout, pmm.free, ENTRIES);
      n, r := MapEach(calls);
      TablesAreSlots(memory[..], layout, pmm.free, ENTRIES);
      RunConserves(a, layout.directory, calls);
      forall p: nat | p < PAGES ensures Walk(p) == Last(calls[..n], p, old(Walk(p))) {
        LastCallWins(a, layout.directory, calls, p);
        assert View().entries[p] == Walk(p) && a.entries[p] == old(Walk(p));
      }
    }

    method MapEach(calls: seq<MapCall>) returns (n: nat, r: MapOutcome)
      requires Valid()
      modifies memory, pmm`freeCount, pmm`free, pmm.bitmap
      ensures Valid() && n <= |calls|
      ensures Ending(View(), n, r) == MapRun(old(View()), layout.directory, calls)
      decreases calls
    {
      if calls == [] {
        return 0, Mapped;
      }
      var c := calls[0];
      r := PagingMap(c.virt, c.phys, c.flags);
      n := 0;
      if r == Mapped {
        var m;
        m, r := MapEach(calls[1..]);
        n := m + 1;
      }
    }

    /** In every state page 0xC0000 + p, which begins at address 0xC0000000 + p * 4096, translates as page p does. */
    lemma WindowAtC0000000(p: nat)
      requires Valid() && p < 1024
      ensures Walk(0xC_0000 + p) == Walk(p)
    {
      WindowsAgree(p);
    }

    /** After paging_init exactly the low 4 MB and the 4 MB from 0xC0000000 are mapped, page by page to frames 0 to 1023. */
    lemma FreshMappings(p: nat)
      requires Fresh() && p < PAGES
      ensures Walk(p).Some? <==> p < 0x400 || 0xC_0000 <= p < 0xC_0400
      ensures p < 0x400 ==> Walk(p) == Some(p * 4096 + 3)
      ensures 0xC_0000 <= p < 0xC_0400 ==> Walk(p) == Some((p - 0xC_0000) * 4096 + 3)
    {
    }

    /** In every state the low 4 MB and the kernel window translate alike, entry for entry. */
    lemma WindowsAgree(p: nat)
      requires Valid() && p < ENTRIES
      ensures Walk(KERNEL_SLOT * ENTRIES + p) == Walk(p)
    {
      assert Window(p / ENTRIES) && Window(KERNEL_SLOT);
      assert TableOf(memory[..], layout, KERNEL_SLOT) == TableOf(memory[..], layout, 0);
    }

    /**
     Right after paging_init only the low 4 MB are mapped, so the first call that needs a new table completes exactly
     when the lowest free frame is one of theirs; otherwise clearing the new table faults.
     */
    lemma FirstTableIff(c: MapCall)
      requires Valid() && layout.directory < ENTRIES && layout.frames <= KERNEL_SLOT * ENTRIES && Fresh()
      requires !SlotPresent(memory[..], layout, Slot(c.virt)) && pmm.free != {}
      ensures var r := MapStep(View(), layout.directory, c).outcome;
              && (r == Mapped <==> LowestOf(pmm.free) < ENTRIES)
              && (r == Mapped || r == PageFault(LowestOf(pmm.free)))
    {
      pmm.FreeBounded();
      forall p: nat | p < PAGES ensures View().entries[p] == Walk(p) {
      }
    }

    /** After paging_init the low 4 MB are mapped to themselves and no free frame beyond them is. */
    lemma FreshIsLow()
      requires Valid() && layout.directory < ENTRIES && layout.firstTable < ENTRIES && Fresh()
      requires layout.frames <= KERNEL_SLOT * ENTRIES
      ensures LowMapped(View(), layout.directory) && HighUnreachable(View())
    {
      pmm.FreeBounded();
      forall p: nat | p < PAGES ensures View().entries[p] == Walk(p) {
      }
    }

    /**
     So a run of calls after paging_init that leaves the low 4 MB alone and maps no other page to its own frame completes
     if and only if the tables it needs are at most the free frames below 4 MB.
     */
    lemma FreshRunsIff(calls: seq<MapCall>)
      requires Valid() && layout.directory < ENTRIES && layout.firstTable < ENTRIES && Fresh()
      requires layout.frames <= KERNEL_SLOT * ENTRIES
      requires forall c :: c in calls ==> KeepsLow(c) && NotIdentity(c)
      ensures MapRun(View(), layout.directory, calls).outcome == Mapped
              <==> |LowFrames(pmm.free)| >= |Missing(View().tables, calls)|
    {
      FreshIsLow();
      LowRunCompletesIff(View(), layout.directory, calls);
    }

    /** While the low 4 MB keep their identity mapping, a call whose tables lie there can only run out of frames. */
    lemma LowCallsComplete(c: MapCall)
      requires Valid() && LowMapped(View(), layout.directory)
      requires pmm.free != {} ==> LowestOf(pmm.free) < ENTRIES
      ensures var r := MapStep(View(), layout.directory, c).outcome;
              && (r == OutOfFrames <==> !SlotPresent(memory[..], layout, Slot(c.virt)) && pmm.free == {})
              && (r == Mapped || r == OutOfFrames)
    {
    }

    // ----- the frame allocator's other clients

    /** A frame handed to another client is no table, and the translation and the tables stay as they are. */
    method OtherAlloc() returns (r: Outcome<Word>)
      requires Valid()
      modifies pmm`freeCount, pmm`free, pmm.bitmap
      ensures Valid() && View() == old(View()).(free := pmm.free)
      ensures r.Done? ==> NoTable(r.value / FRAME_SIZE)
    {
      r := pmm.AllocFrame();
      if r.Done? {
        FewerFree(memory[..], layout, old(pmm.free), r.value / FRAME_SIZE);
        FreeIsNoTable(memory[..], layout, old(pmm.free), r.value / FRAME_SIZE);
      }
    }

    /** Frame `f` holds neither the directory nor a table. */
    ghost predicate NoTable(f: nat)
      reads memory
    {
      f != layout.directory && f != layout.firstTable
      && forall s: nat :: s < ENTRIES && SlotPresent(memory[..], layout, s) ==> TableOf(memory[..], layout, s) != f
    }

    /** Nor does giving such a frame back change them, whatever the outcome. */
    method OtherFree(address: Word) returns (r: Outcome<()>)
      requires Valid() && NoTable(address / FRAME_SIZE)
      modifies pmm`freeCount, pmm`free, pmm.bitmap
      ensures Valid() && View() == old(View()).(free := pmm.free)
    {
      r := pmm.FreeFrame(address);
      if r.Done? {
        MoreFree(memory[..], layout, old(pmm.free), address / FRAME_SIZE);
      }
    }

    /** A client's store into a frame that is no table leaves tables and translation alone. */
    method OtherStore(f: nat, i: nat, w: Word)
      requires Valid() && f < layout.frames && i < ENTRIES && NoTable(f)
      modifies memory
      ensures Valid() && View() == old(View()) && NoTable(f)
      ensures memory[..] == old(memory[..])[EntryIndex(f, i) := w]
    {
      InMemory(memory[..], layout, f, i);
      memory[f * ENTRIES + i] := w;
      StoreApart(old(memory[..]), memory[..], layout, pmm.free, f, i, w);
    }
  }

  lemma TableView(mem: Memory, mem': Memory, l: Layout, free: set<nat>, s: nat, f: nat)
    requires WellFormed(mem, l, free) && s < ENTRIES && f < l.frames && TableAdded(mem, mem', l, s, f)
    requires forall p: nat :: p < PAGES ==> Lookup(mem', l, p) == Lookup(mem, l, p)
    ensures var a := SpaceOf(mem, l, free);
            SpaceOf(mem', l, free - {f}) == Space(a.entries, a.tables[s := Some(f)], free - {f})
  {
    var a, b := SpaceOf(mem, l, free), SpaceOf(mem', l, free - {f});
    assert a.entries == b.entries;
    forall t | 0 <= t < ENTRIES ensures b.tables[t] == a.tables[s := Some(f)][t] {
      assert t != s ==> EntryAt(mem', l.directory, t) == EntryAt(mem, l.directory, t);
    }
    assert b.tables == a.tables[s := Some(f)];
  }

  lemma WriteView(mem: Memory, mem': Memory, l: Layout, free: set<nat>, c: MapCall)
    requires forall s: nat :: s < ENTRIES ==> EntryAt(mem', l.directory, s) == EntryAt(mem, l.directory, s)
    requires forall p: nat :: p < PAGES ==>
               Lookup(mem', l, p) == if Alias(p, PageOf(c.virt)) then Some(LeafEntry(c.phys, c.flags)) else Lookup(mem, l, p)
    ensures SpaceOf(mem', l, free) == Remapped(SpaceOf(mem, l, free), c)
  {
    var a, b := SpaceOf(mem, l, free), SpaceOf(mem', l, free);
    assert a.tables == b.tables;
    assert b.entries == Remapped(a, c).entries;
  }

  lemma MoreFree(mem: Memory, l: Layout, free: set<nat>, f: nat)
    requires WellFormed(mem, l, free) && f != l.directory && f != l.firstTable
    requires forall s: nat :: s < ENTRIES && SlotPresent(mem, l, s) ==> TableOf(mem, l, s) != f
    ensures WellFormed(mem, l, free + {f})
  {
    forall s: nat | s < ENTRIES && SlotPresent(mem, l, s)
      ensures TablePlaced(l, free + {f}, TableOf(mem, l, s))
    {
      assert TablePlaced(l, free, TableOf(mem, l, s));
    }
  }

  lemma FreeIsNoTable(mem: Memory, l: Layout, free: set<nat>, f: nat)
    requires WellFormed(mem, l, free) && f in free
    ensures f != l.directory && f != l.firstTable
    ensures forall s: nat :: s < ENTRIES && SlotPresent(mem, l, s) ==> TableOf(mem, l, s) != f
  {
    forall s: nat | s < ENTRIES && SlotPresent(mem, l, s) ensures TableOf(mem, l, s) != f {
      assert TablePlaced(l, free, TableOf(mem, l, s));
    }
  }

  lemma StoreApart(mem: Memory, mem': Memory, l: Layout, free: set<nat>, f: nat, i: nat, w: Word)
    requires WellFormed(mem, l, free) && f < l.frames && i < ENTRIES && EntryIndex(f, i) < |mem|
    requires mem' == WriteEntry(mem, f, i, w) && f != l.directory
    requires forall s: nat :: s < ENTRIES && SlotPresent(mem, l, s) ==> TableOf(mem, l, s) != f
    ensures WellFormed(mem', l, free) && SpaceOf(mem', l, free) == SpaceOf(mem, l, free)
    ensures forall s: nat :: s < ENTRIES ==> SlotPresent(mem', l, s) == SlotPresent(mem, l, s) && TableOf(mem', l, s) == TableOf(mem, l, s)
  {
    forall s: nat | s < ENTRIES ensures EntryAt(mem', l.directory, s) == EntryAt(mem, l.directory, s) {
      EntryApart(l.directory, s, f, i);
    }
    forall s: nat | s < ENTRIES
      ensures SlotPresent(mem', l, s) == SlotPresent(mem, l, s) && TableOf(mem', l, s) == TableOf(mem, l, s)
    {
      assert EntryAt(mem', l.directory, s) == EntryAt(mem, l.directory, s);
    }
    forall p: nat | p < PAGES ensures Lookup(mem', l, p) == Lookup(mem, l, p) {
      EntryApart(TableOf(mem, l, p / ENTRIES), p % ENTRIES, f, i);
    }
    assert SpaceOf(mem', l, free).entries == SpaceOf(mem, l, free).entries;
    assert SpaceOf(mem', l, free).tables == SpaceOf(mem, l, free).tables;
  }

  lemma FewerFree(mem: Memory, l: Layout, free: set<nat>, f: nat)
    requires WellFormed(mem, l, free)
    ensures WellFormed(mem, l, free - {f})
  {
    forall s: nat | s < ENTRIES && SlotPresent(mem, l, s)
      ensures TablePlaced(l, free - {f}, TableOf(mem, l, s))
    {
      assert TablePlaced(l, free, TableOf(mem, l, s));
    }
  }

  /** Memory as paging_init leaves it. */
  lemma InitialTables(mem: Memory, l: Layout, free: set<nat>)
    requires |mem| == l.frames * ENTRIES && l.frames <= MAX_FRAMES
    requires l.directory < l.frames && l.firstTable < l.frames && l.directory != l.firstTable
    requires l.directory !in free && l.firstTable !in free
    requires forall i: nat :: i < ENTRIES ==> EntryAt(mem, l.firstTable, i) == i * FRAME_SIZE + 3
    requires forall s: nat :: s < ENTRIES ==>
               EntryAt(mem, l.directory, s) == if Window(s) then l.firstTable * FRAME_SIZE + 3 else 0
    ensures WellFormed(mem, l, free)
    ensures forall p: nat :: p < PAGES ==>
              Lookup(mem, l, p) == if Window(p / ENTRIES) then Some(p % ENTRIES * FRAME_SIZE + 3) else None
    ensures forall s: nat :: s < ENTRIES ==> (SlotPresent(mem, l, s) <==> Window(s))
  {
    forall s: nat | s < ENTRIES
      ensures SlotPresent(mem, l, s) <==> Window(s)
      ensures Window(s) ==> TableOf(mem, l, s) == l.firstTable
    {
    }
  }

  /**
   A machine on which `FirstTableIff` gives a fault: the memory map reports nothing usable below 4 MB, so frames are free
   and the lowest of them is not mapped.
   */
  lemma NoLowFrames()
    ensures var free := InitialFree([Region(0x40_0000, 0x7C0_0000, MEMORY_USABLE)], 0x12_0000, 0x12_0000);
            free != {} && LowestOf(free) >= ENTRIES
  {
    var r := Region(0x40_0000, 0x7C0_0000, MEMORY_USABLE);
    var free := InitialFree([r], 0x12_0000, 0x12_0000);
    assert r in [r] && Covers(Wrap(r.base), Wrap(r.length), 0x400);
    assert 0x400 in free;
    assert forall f :: f in free ==> Covers(Wrap(r.base), Wrap(r.length), f);
  }
}
