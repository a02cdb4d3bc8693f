/**
 Two-level page tables in physical memory, and the translation the processor reads out of them: "32-Bit Paging" of
 the Intel SDM, volume 3A.  Physical memory is a sequence of words, 1024 to a frame; a virtual page is its number.
 */
module PageModel {
  import opened Words
  import opened Bits
  import opened Frames

  const ENTRIES := 1024
  const PAGES := 0x10_0000
  const KERNEL_SLOT := 768
  const PAGE_PRESENT := 0x1
  const PAGE_WRITABLE := 0x2
  const FRAME_MASK: Word := 0xFFFF_F000

  type Memory = seq<Word>

  // ----- the bit expressions of the C code, and what they compute

  /** `(virt >> 22) & 0x3ff` */
  function DirIndex(virt: Word): nat {
    And(Shr(virt, 22), 0x3FF)
  }

  /** `(virt >> 12) & 0x3ff` */
  function TableIndex(virt: Word): nat {
    And(Shr(virt, 12), 0x3FF)
  }

  function PageOf(virt: Word): nat {
    virt / FRAME_SIZE
  }

  lemma Indices(virt: Word)
    ensures DirIndex(virt) == PageOf(virt) / ENTRIES < ENTRIES
    ensures TableIndex(virt) == PageOf(virt) % ENTRIES
  {
    Shift22(virt);
    Mask10(virt / 4096 / 1024);
    Shift12(virt);
    Mask10(virt / 4096);
  }

  predicate Present(e: Word) {
    And(e, PAGE_PRESENT) != 0
  }

  lemma PresentIsOdd(e: Word)
    ensures Present(e) <==> e % 2 == 1
  {
    assert Pow2(1) - 1 == 1;
    AndLow(e, 1);
    assert Low(e, 1) == e % 2 + 2 * Low(e / 2, 0);
  }

  /** `e & 0xfffff000` is the address of the frame that entry `e` points to. */
  lemma MaskFrame(e: Word)
    ensures And(e, FRAME_MASK) == e / FRAME_SIZE * FRAME_SIZE
  {
    MaskHigh20(e);
  }

  /** `(phys & 0xfffff000) | flags | PAGE_PRESENT` */
  function LeafEntry(phys: Word, flags: Word): Word {
    LeafBound(phys, flags);
    Or(Or(And(phys, FRAME_MASK), flags), PAGE_PRESENT)
  }

  lemma LeafBound(phys: Word, flags: Word)
    ensures Or(Or(And(phys, FRAME_MASK), flags), PAGE_PRESENT) < WORD_LIMIT
  {
    Pow32();
    AndBound(phys, FRAME_MASK);
    OrBound(And(phys, FRAME_MASK), flags, 32);
    OrBound(Or(And(phys, FRAME_MASK), flags), PAGE_PRESENT, 32);
  }

  /** `table | PAGE_PRESENT | PAGE_WRITABLE` for the table in frame `f` */
  lemma DirEntryIs(f: nat)
    requires f < MAX_FRAMES
    ensures Or(Or(f * FRAME_SIZE, PAGE_PRESENT), PAGE_WRITABLE) == f * FRAME_SIZE + 3
  {
    Shift12(f);
    Pow10();
    OrAdds(f, 1, 12);
    OrAssociates(f * FRAME_SIZE, 1, 2);
    assert Or(1, 2) == 3 by {
      assert Or(1, 2) == 1 + 2 * Or(0, 1);
      assert Or(0, 1) == 1 + 2 * Or(0, 0);
    }
    OrAdds(f, 3, 12);
  }

  lemma OrPages(a: nat, b: nat)
    ensures Or(a, b) / FRAME_SIZE == Or(a / FRAME_SIZE, b / FRAME_SIZE)
    ensures Or(a, b) % FRAME_SIZE == Or(a % FRAME_SIZE, b % FRAME_SIZE)
  {
    OrHigh(a, b, 12);
    OrLow(a, b, 12);
    Shift12(a);
    Shift12(b);
    Shift12(Or(a, b));
  }

  /** `base | flags | one`, for the base address of frame `h` and one flag bit */
  lemma EntryParts(h: nat, base: nat, flags: nat, one: nat)
    requires base / FRAME_SIZE == h && base % FRAME_SIZE == 0
    requires one / FRAME_SIZE == 0 && one % FRAME_SIZE == one
    ensures Or(Or(base, flags), one) / FRAME_SIZE == Or(h, flags / FRAME_SIZE)
    ensures Or(Or(base, flags), one) % FRAME_SIZE == Or(flags % FRAME_SIZE, one)
  {
    OrPages(base, flags);
    OrPages(Or(base, flags), one);
    OrZero(flags % FRAME_SIZE);
    OrZero(Or(h, flags / FRAME_SIZE));
  }

  /** A leaf entry is always present; its frame and its flag bits are those of `phys` joined with what `flags` sets. */
  lemma LeafEntryIs(phys: Word, flags: Word)
    ensures LeafEntry(phys, flags) % 2 == 1
    ensures LeafEntry(phys, flags) / FRAME_SIZE == Or(phys / FRAME_SIZE, flags / FRAME_SIZE)
    ensures LeafEntry(phys, flags) % FRAME_SIZE == Or(flags % FRAME_SIZE, PAGE_PRESENT)
  {
    var base := And(phys, FRAME_MASK);
    MaskFrame(phys);
    EntryParts(phys / FRAME_SIZE, base, flags, PAGE_PRESENT);
    OrHalves(Or(base, flags), PAGE_PRESENT);
  }

  /**
   The entry points to `phys`'s own frame exactly when `flags` sets no frame bit that `phys` lacks; flags below 0x1000
   set none.
   */
  lemma LeafFrameIff(phys: Word, flags: Word)
    ensures LeafEntry(phys, flags) / FRAME_SIZE == phys / FRAME_SIZE
            <==> And(phys / FRAME_SIZE, flags / FRAME_SIZE) == flags / FRAME_SIZE
    ensures flags < FRAME_SIZE ==> LeafEntry(phys, flags) / FRAME_SIZE == phys / FRAME_SIZE
  {
    LeafEntryIs(phys, flags);
    OrAbsorbsIff(phys / FRAME_SIZE, flags / FRAME_SIZE);
    OrZero(phys / FRAME_SIZE);
  }

  /** Flags that do: mapping the null page with flags 0x1000 points it to frame 1. */
  lemma FlagsMoveFrame()
    ensures LeafEntry(0, 0x1000) / FRAME_SIZE == 1
  {
    LeafEntryIs(0, 0x1000);
    assert Or(0, 1) == 1 + 2 * Or(0, 0);
  }
}
