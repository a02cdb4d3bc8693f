/**
 The bump allocator of mm/memory.c, which places the frame bitmap behind the kernel image and then gives the heap its
 base.
 */
module Boot {
  import opened Words
  import opened HeapModel
  import Heap
  import FrameRuns

  class BumpAllocator {
    const kernelEnd: Word
    var bumpHeap: Word      // 0 until the first allocation

    constructor (kernelEnd: Word)
      ensures this.kernelEnd == kernelEnd && bumpHeap == 0
    {
      this.kernelEnd := kernelEnd;
      bumpHeap := 0;
    }

    /** Where the next allocation begins. */
    ghost function Next(): Word
      reads this
    {
      if bumpHeap == 0 then RoundUp(kernelEnd) else bumpHeap
    }

    method BumpAlloc(size: Word) returns (result: Word)
      modifies this
      ensures result == old(Next()) && bumpHeap == Wrap(result + RoundUp(size))
    {
      if bumpHeap == 0 {
        bumpHeap := Align(kernelEnd);
      }
      var rounded := Align(size);
      result := bumpHeap;
      bumpHeap := Wrap(bumpHeap as int + rounded as int);
    }
  }

  method Align(n: Word) returns (r: Word)
    ensures r == RoundUp(n)
  {
    r := n;
    if r % 4 != 0 {
      r := Wrap(n as int + (4 - n % 4));
    }
  }

  const BITMAP_BYTES: Word := FrameRuns.BITMAP_SIZE

  /** The memory part of kernel_main: the bitmap, then the heap from where the bitmap ends, all of it free. */
  method MemoryBoot(ram: array<Word>, kernelEnd: Word) returns (bitmap: Word, heap: Heap.Heap)
    requires 0 < kernelEnd && kernelEnd + 3 + BITMAP_BYTES + HEAP_MAX_SIZE <= 4 * ram.Length < WORD_LIMIT
    modifies ram
    ensures kernelEnd <= bitmap <= kernelEnd + 3 && bitmap % 4 == 0
    ensures bitmap == RoundUp(kernelEnd) && heap.ram == ram && heap.Valid() && heap.heapStart == bitmap + 4096
    ensures heap.blocks == [Block(0x3F_FFF4, true)] && heap.MemoryFree() == 0x40_0000
    ensures forall k :: 0 <= k < bitmap / 4 + BITMAP_BYTES / 4 ==> ram[k] == old(ram[k])
  {
    var bump := new BumpAllocator(kernelEnd);
    bitmap := bump.BumpAlloc(BITMAP_BYTES);
    heap := new Heap.Heap(ram, bump.bumpHeap);
  }
}
