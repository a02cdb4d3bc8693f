/**
 The allocator of mm/memory.c: first-fit `malloc` with splitting and `free` with coalescing on both sides, over block
 headers that are linked through the memory being managed.
 */
module Heap {
  import opened Words
  import opened HeapModel
  import opened HeapRuns
  import opened HeapMemory

  class Heap {
    const ram: array<Word>
    var heapStart: Word
    var heapUsed: Word
    ghost var blocks: seq<Block>

    ghost predicate Valid()
      reads this, ram
    {
      && Placed(ram[..], heapStart)
      && HeapModel.Valid(blocks)
      && Represents(ram[..], heapStart, blocks)
      && heapUsed == LiveBytes(blocks)
    }

    /** memory_init: one free block from the first word boundary at or after the end of the bump allocations. */
    constructor (ram: array<Word>, bumpEnd: Word)
      requires 0 < RoundUp(bumpEnd) && RoundUp(bumpEnd) + HEAP_MAX_SIZE <= 4 * ram.Length < WORD_LIMIT
      modifies ram
      ensures Valid() && this.ram == ram
      ensures heapStart == RoundUp(bumpEnd)
      ensures blocks == Initial() && Live(blocks) == {} && heapUsed == 0
      ensures forall k :: 0 <= k < ram.Length && !HeaderWord(heapStart, blocks, k) ==> ram[k] == old(ram[k])
    {
      this.ram := ram;
      var address: Word := bumpEnd;
      if address % 4 != 0 {
        address := Wrap(address + (4 - address % 4));
      }
      heapStart := address;
      heapUsed := 0;
      blocks := Initial();
      new;
      ram[address / 4] := HEAP_MAX_SIZE - HEADER_SIZE;
      ram[address / 4 + 1] := 1;
      ram[address / 4 + 2] := 0;
      InitialValid();
      assert HeaderIndex(heapStart, blocks, 0) == address / 4;
    }

    // The header fields of the block at address `a`.

    function SizeAt(a: Word): Word
      requires a / 4 + 3 <= ram.Length
      reads ram
    {
      ram[a / 4]
    }

    function FreeAt(a: Word): Word
      requires a / 4 + 3 <= ram.Length
      reads ram
    {
      ram[a / 4 + 1]
    }

    function NextAt(a: Word): Word
      requires a / 4 + 3 <= ram.Length
      reads ram
    {
      ram[a / 4 + 2]
    }

    /** The address of block `i`, or null past the last one. */
    ghost function AddressOf(i: nat): nat
      requires i <= |blocks|
      reads this
    {
      if i == |blocks| then 0 else heapStart + Offset(blocks, i)
    }

    lemma HeaderFields(i: nat)
      requires Placed(ram[..], heapStart) && Tiled(blocks) && Represents(ram[..], heapStart, blocks) && i < |blocks|
      ensures 0 < AddressOf(i) < WORD_LIMIT && AddressOf(i) % 4 == 0
      ensures AddressOf(i) / 4 == HeaderIndex(heapStart, blocks, i) && AddressOf(i) / 4 + 3 <= ram.Length
      ensures SizeAt(AddressOf(i)) == blocks[i].size
      ensures FreeAt(AddressOf(i)) == (if blocks[i].free then 1 else 0)
      ensures NextAt(AddressOf(i)) == AddressOf(i + 1) == NextAddress(heapStart, blocks, i)
      ensures AddressOf(i) + Extent(blocks[i]) <= heapStart + HEAP_MAX_SIZE
    {
      assert HeaderAt(ram[..], heapStart, blocks, i);
      HeaderPosition(blocks, i);
    }

    /** Splits block `i`, which starts at address `a`: the branch of malloc that writes a new header. */
    method SplitAt(a: Word, size: Word, ghost i: nat)
      requires Valid() && i < |blocks| && a == AddressOf(i) && size % 4 == 0
      requires blocks[i].size >= size + HEADER_SIZE
      modifies ram, this`blocks
      ensures Placed(ram[..], heapStart) && Tiled(blocks) && Represents(ram[..], heapStart, blocks)
      ensures blocks == Split(old(blocks), i, size)
      ensures forall k :: 0 <= k < ram.Length && !HeaderWord(heapStart, blocks, k) ==> ram[k] == old(ram[k])
    {
      HeaderFields(i);
      ghost var before := ram[..];
      var newBlock: Word := a + HEADER_SIZE + size;
      var rest: Word := SizeAt(a) - size - HEADER_SIZE;
      var next := NextAt(a);
      SplitRepresented(before, heapStart, blocks, i, size, rest, next, newBlock);
      SplitPosition(heapStart, blocks, i, size);
      SplitTiled(blocks, i, size);
      ram[newBlock / 4] := rest;
      ram[newBlock / 4 + 1] := 1;
      ram[newBlock / 4 + 2] := next;
      ram[a / 4] := size;
      ram[a / 4 + 2] := newBlock;
      assert ram[..] == Divided(before, a / 4, newBlock / 4, rest, next, size, newBlock);
      blocks := Split(blocks, i, size);
      assert HeaderIndex(heapStart, blocks, i) == a / 4 && HeaderIndex(heapStart, blocks, i + 1) == newBlock / 4;
    }

    /** Writes the free flag of block `i`. */
    method SetFreeAt(a: Word, free: bool, ghost i: nat)
      requires Placed(ram[..], heapStart) && Tiled(blocks) && Represents(ram[..], heapStart, blocks)
      requires i < |blocks| && a == AddressOf(i)
      modifies ram, this`blocks
      ensures Placed(ram[..], heapStart) && Tiled(blocks) && Represents(ram[..], heapStart, blocks)
      ensures blocks == SetFree(old(blocks), i, free) && AddressOf(i) == old(AddressOf(i))
      ensures a / 4 + 3 <= ram.Length && ram[..] == old(ram[..])[a / 4 + 1 := if free then 1 else 0]
      ensures HeaderWord(heapStart, blocks, a / 4 + 1)
      ensures forall k :: HeaderWord(heapStart, blocks, k) <==> HeaderWord(heapStart, old(blocks), k)
    {
      HeaderFields(i);
      SetFreeHeaderWords(heapStart, blocks, i, free);
      SetFreeRepresented(ram[..], heapStart, blocks, i, free);
      SetFreeOffsets(blocks, i, free, |blocks|);
      SetFreeOffsets(blocks, i, free, i);
      assert SetFree(blocks, i, free)[..|blocks|] == SetFree(blocks, i, free) && blocks[..|blocks|] == blocks;
      ram[a / 4 + 1] := if free then 1 else 0;
      blocks := SetFree(blocks, i, free);
      assert HeaderIndex(heapStart, blocks, i) == a / 4;
    }

    /** Adds the payload of block `i + 1`, and its header, to block `i`. */
    method MergeAt(a: Word, ghost i: nat)
      requires Placed(ram[..], heapStart) && Tiled(blocks) && Represents(ram[..], heapStart, blocks)
      requires i + 1 < |blocks| && a == AddressOf(i)
      modifies ram, this`blocks
      ensures Placed(ram[..], heapStart) && Tiled(blocks) && Represents(ram[..], heapStart, blocks)
      ensures blocks == Merge(old(blocks), i) && AddressOf(i) == old(AddressOf(i))
      ensures a / 4 + 3 <= ram.Length
      ensures forall k :: 0 <= k < ram.Length && k != a / 4 && k != a / 4 + 2 ==> ram[k] == old(ram[k])
      ensures HeaderWord(heapStart, blocks, a / 4) && HeaderWord(heapStart, blocks, a / 4 + 2)
    {
      HeaderFields(i);
      HeaderFields(i + 1);
      NextOffset(blocks, i);
      ghost var before := ram[..];
      var after := NextAt(a);
      var size: Word := SizeAt(a) + (SizeAt(after) + HEADER_SIZE);
      var next := NextAt(after);
      MergeRepresented(before, heapStart, blocks, i, size, next);
      MergeTiled(blocks, i);
      MergeOffsets(blocks, i, i);
      ram[a / 4] := size;
      ram[a / 4 + 2] := next;
      assert ram[..] == Merged(before, a / 4, size, next);
      blocks := Merge(blocks, i);
      assert HeaderIndex(heapStart, blocks, i) == a / 4;
    }

    /** Where malloc's pointer into block `i` points: just past the header. */
    ghost function PayloadAddress(i: nat): nat
      requires i < |blocks|
      reads this
    {
      heapStart + Offset(blocks, i) + HEADER_SIZE
    }

    /** The branch of malloc that has found a block: split it if enough would remain, then mark it used. */
    method Take(a: Word, size: Word, ghost i: nat)
      requires Valid() && i < |blocks| && a == AddressOf(i) && size % 4 == 0 && Fits(blocks[i], size)
      modifies ram, this`blocks, this`heapUsed
      ensures Valid() && blocks == Allot(old(blocks), i, size)
      ensures Offset(blocks, i) == Offset(old(blocks), i)
      ensures forall k :: 0 <= k < ram.Length && !HeaderWord(heapStart, blocks, k) ==> ram[k] == old(ram[k])
    {
      HeaderFields(i);
      AllotSteps(blocks, i, size);
      assert SizeAt(a) >= Wrap(size as int + HEADER_SIZE + SPLIT_SLACK) <==> Splits(blocks[i], size);
      if SizeAt(a) >= Wrap(size as int + HEADER_SIZE + SPLIT_SLACK) {
        SplitAt(a, size, i);
        SplitPosition(heapStart, old(blocks), i, size);
      }
      SetFreeAt(a, false, i);
      TakeUsed(a, size, i, old(blocks));
      heapUsed := Wrap(heapUsed as int + (SizeAt(a) + HEADER_SIZE));
    }

    lemma TakeUsed(a: Word, size: Word, i: nat, bs: seq<Block>)
      requires Placed(ram[..], heapStart) && Tiled(blocks) && Represents(ram[..], heapStart, blocks)
      requires HeapModel.Valid(bs) && i < |bs| && size % 4 == 0 && Fits(bs[i], size)
      requires i < |blocks| && a == AddressOf(i) && blocks == Allot(bs, i, size)
      ensures a / 4 + 3 <= ram.Length && LiveBytes(blocks) == LiveBytes(bs) + SizeAt(a) + HEADER_SIZE
      ensures LiveBytes(blocks) < WORD_LIMIT
      ensures HeapModel.Valid(blocks) && Offset(blocks, i) == Offset(bs, i)
    {
      HeaderFields(i);
      AllotLive(bs, i, size);
      AllotValid(bs, i, size);
      LiveBytesBound(blocks);
    }

    /** The walk of malloc over the linked headers: the address of the first block that fits, or null. */
    method Find(size: Word) returns (current: Word)
      requires Valid()
      ensures current == AddressOf(FirstFit(blocks, size))
      ensures current == 0 <==> FirstFit(blocks, size) == |blocks|
    {
      current := heapStart;
      ghost var i := 0;
      assert blocks[..0] == [];
      while current != 0
        invariant i <= |blocks| && current == AddressOf(i)
        invariant forall j :: 0 <= j < i ==> !Fits(blocks[j], size)
        decreases |blocks| - i
      {
        HeaderFields(i);
        if FreeAt(current) != 0 && SizeAt(current) >= size {
          break;
        }
        current := NextAt(current);
        i := i + 1;
      }
      FirstFitIs(blocks, size, i);
    }

    method Malloc(n: Word) returns (r: Outcome<Word>)
      requires Valid()
      modifies ram, this`blocks, this`heapUsed
      ensures Valid()
      ensures n == 0 ==> r == Done(0)
      ensures match Step(old(blocks), Call.Malloc(n))
              case Panicked => r == Panicked && blocks == old(blocks)
              case Done(bs) => r.Done? && blocks == bs
      ensures n != 0 && r.Done? ==>
                var i := FirstFit(old(blocks), RoundUp(n));
                r.value == PayloadAddress(i) && r.value != 0 && Offset(blocks, i) == Offset(old(blocks), i)
      ensures forall k :: 0 <= k < ram.Length && !HeaderWord(heapStart, blocks, k) ==> ram[k] == old(ram[k])
    {
      if n == 0 {
        return Done(0);
      }
      var size := n;
      if size % 4 != 0 {
        size := Wrap(size as int + (4 - size % 4));
      }
      var current := Find(size);
      ghost var i := FirstFit(blocks, size);
      if current == 0 {
        return Panicked;
      }
      HeaderFields(i);
      Take(current, size, i);
      return Done(current + HEADER_SIZE);
    }

    /** `ptr` is the payload address of a live allocation. */
    ghost predicate IsLive(ptr: Word)
      reads this
    {
      exists x :: x in Live(blocks) && ptr == heapStart + x.offset + HEADER_SIZE
    }

    /** What `free` needs of a non-null pointer: a header in front of it that it can read. */
    predicate HasHeader(ptr: Word)
      reads this
    {
      ptr % 4 == 0 && heapStart + HEADER_SIZE <= ptr && ptr <= 4 * ram.Length
    }

    ghost function IndexOfPointer(ptr: Word): nat
      reads this
    {
      IndexOf(blocks, ptr - HEADER_SIZE - heapStart)
    }

    /**
     A pointer is null, live, or has a nonzero free flag in front of it (the double free that the code detects);
     the C code gives no meaning to any other pointer.
     */
    method Free(ptr: Word) returns (r: Outcome<()>)
      requires Valid()
      requires ptr != 0 ==> HasHeader(ptr) && (IsLive(ptr) || FreeAt(ptr - HEADER_SIZE) != 0)
      modifies ram, this`blocks, this`heapUsed
      ensures Valid()
      ensures r == Panicked <==> ptr != 0 && old(FreeAt(ptr - HEADER_SIZE)) != 0
      ensures ptr == 0 || r == Panicked ==> blocks == old(blocks) && ram[..] == old(ram[..])
      ensures ptr != 0 && r.Done? ==>
                && old(IsLive(ptr)) && old(IndexOfPointer(ptr)) < |old(blocks)|
                && blocks == HeapModel.Release(old(blocks), old(IndexOfPointer(ptr)))
                && FreeAt(ptr - HEADER_SIZE) == 1
      ensures forall k :: 0 <= k < ram.Length && !HeaderWord(heapStart, old(blocks), k) ==> ram[k] == old(ram[k])
    {
      if ptr == 0 {
        return Done(());
      }
      var header: Word := ptr - HEADER_SIZE;
      if FreeAt(header) != 0 {
        return Panicked;
      }
      PointerBlock(ptr);
      Release(header, IndexOfPointer(ptr));
      return Done(());
    }

    /** free once it has found the block live: flag, accounting, coalescing. */
    method Release(header: Word, ghost i: nat)
      requires Valid() && i < |blocks| && !blocks[i].free && header == AddressOf(i)
      modifies ram, this`blocks, this`heapUsed
      ensures Valid() && blocks == HeapModel.Release(old(blocks), i)
      ensures header / 4 + 3 <= ram.Length && FreeAt(header) == 1
      ensures forall k :: 0 <= k < ram.Length && !HeaderWord(heapStart, old(blocks), k) ==> ram[k] == old(ram[k])
    {
      ReleaseLive(blocks, i);
      ReleaseValid(blocks, i);
      LiveBytesBound(blocks);
      SetFreeAt(header, true, i);
      HeaderFields(i);
      heapUsed := Wrap(heapUsed - (SizeAt(header) + HEADER_SIZE));
      Coalesce(header, i);
    }

    lemma PointerBlock(ptr: Word)
      requires Valid() && ptr != 0 && HasHeader(ptr) && IsLive(ptr)
      ensures var i := IndexOfPointer(ptr); i < |blocks| && !blocks[i].free && AddressOf(i) == ptr - HEADER_SIZE
    {
      var x :| x in Live(blocks) && ptr == heapStart + x.offset + HEADER_SIZE;
      LiveIndexFrom(blocks, 0, x);
      IndexOfSound(blocks, x.offset);
    }

    /** Exactly the block before block `i` links to it. */
    lemma PredecessorUnique(j: nat, i: nat)
      requires Placed(ram[..], heapStart) && Tiled(blocks) && Represents(ram[..], heapStart, blocks)
      requires i < |blocks| && j < |blocks|
      ensures AddressOf(j) / 4 + 3 <= ram.Length
      ensures NextAt(AddressOf(j)) == AddressOf(i) <==> j + 1 == i
    {
      HeaderFields(j);
      HeaderFields(i);
      if j + 1 < i {
        OffsetIncreasing(blocks, j + 1, i);
      } else if i < j + 1 < |blocks| {
        OffsetIncreasing(blocks, i, j + 1);
      }
    }

    /** The loop of free that walks from the heap start to the block in front of `header`; null when there is none. */
    method Previous(header: Word, ghost i: nat) returns (current: Word)
      requires Placed(ram[..], heapStart) && Tiled(blocks) && Represents(ram[..], heapStart, blocks)
      requires i < |blocks| && header == AddressOf(i)
      ensures current == if i == 0 then 0 else AddressOf(i - 1)
    {
      current := heapStart;
      ghost var j := 0;
      HeaderFields(0);
      while current != 0 && NextAt(current) != header
        invariant j <= |blocks| && current == AddressOf(j)
        invariant current != 0 ==> j < |blocks| && current / 4 + 3 <= ram.Length
        invariant i == 0 || j < i
        decreases |blocks| - j
      {
        HeaderFields(j);
        PredecessorUnique(j, i);
        current := NextAt(current);
        j := j + 1;
        if j < |blocks| {
          HeaderFields(j);
        }
      }
      if j < |blocks| {
        HeaderFields(j);
        PredecessorUnique(j, i);
      }
    }

    /** `if (header->next != 0 && header->next->free)`: absorb the block after block `i`. */
    method CoalesceNext(header: Word, ghost i: nat)
      requires Placed(ram[..], heapStart) && Tiled(blocks) && Represents(ram[..], heapStart, blocks)
      requires i < |blocks| && header == AddressOf(i)
      modifies ram, this`blocks
      ensures Placed(ram[..], heapStart) && Tiled(blocks) && Represents(ram[..], heapStart, blocks)
      ensures blocks == MergeNext(old(blocks), i) && header == AddressOf(i)
      ensures header / 4 + 3 <= ram.Length
      ensures forall k :: 0 <= k < ram.Length && ram[k] != old(ram[k]) ==> k == header / 4 || k == header / 4 + 2
    {
      HeaderFields(i);
      if i + 1 < |blocks| {
        HeaderFields(i + 1);
      }
      if NextAt(header) != 0 && FreeAt(NextAt(header)) != 0 {
        MergeAt(header, i);
      }
    }

    /** `if (current != 0 && current->free)`: let the block before block `i` absorb it. */
    method CoalescePrevious(header: Word, ghost i: nat)
      requires Placed(ram[..], heapStart) && Tiled(blocks) && Represents(ram[..], heapStart, blocks)
      requires i < |blocks| && header == AddressOf(i)
      modifies ram, this`blocks
      ensures Placed(ram[..], heapStart) && Tiled(blocks) && Represents(ram[..], heapStart, blocks)
      ensures blocks == MergePrevious(old(blocks), i)
      ensures forall k :: 0 <= k < ram.Length && ram[k] != old(ram[k]) ==>
                i > 0 && k != header / 4 + 1
                && (k == HeaderIndex(heapStart, old(blocks), i - 1) || k == HeaderIndex(heapStart, old(blocks), i - 1) + 2)
    {
      var current := Previous(header, i);
      if i > 0 {
        HeaderFields(i - 1);
        HeaderFields(i);
        HeadersApart(heapStart, blocks, i - 1, i);
      }
      if current != 0 && FreeAt(current) != 0 {
        MergeAt(current, i - 1);
      }
    }

    /** The second half of free: merge the freed block with the block after it, then with the block before it. */
    method Coalesce(header: Word, ghost i: nat)
      requires Placed(ram[..], heapStart) && Tiled(blocks) && Represents(ram[..], heapStart, blocks)
      requires i < |blocks| && header == AddressOf(i)
      modifies ram, this`blocks
      ensures Placed(ram[..], heapStart) && Tiled(blocks) && Represents(ram[..], heapStart, blocks)
      ensures blocks == MergePrevious(MergeNext(old(blocks), i), i)
      ensures forall k :: 0 <= k < ram.Length && !HeaderWord(heapStart, old(blocks), k) ==> ram[k] == old(ram[k])
      ensures header / 4 + 3 <= ram.Length && FreeAt(header) == old(FreeAt(header))
    {
      HeaderFields(i);
      CoalesceNext(header, i);
      MergeNextHeaderWords(heapStart, old(blocks), i);
      CoalescePrevious(header, i);
    }

    function MemoryUsed(): Word
      reads this
    {
      heapUsed
    }

    function MemoryFree(): Word
      reads this
    {
      Wrap(HEAP_MAX_SIZE - heapUsed)
    }

    /** The two counters report the bytes of the live and of the free blocks, headers included. */
    lemma CountersAgree()
      requires Valid()
      ensures MemoryUsed() == LiveBytes(blocks) && MemoryFree() == FreeBytes(blocks)
      ensures MemoryUsed() + MemoryFree() == HEAP_MAX_SIZE
    {
      BytesAddUp(blocks);
    }

    /** The payload words of live allocations that survive a call. */
    ghost predicate Owned(x: Alloc, k: int)
      reads this
    {
      x in Live(blocks) && PayloadWord(heapStart, x, k)
    }

    lemma OffsetPointer(o: nat)
      requires Valid() && Legal(blocks, Call.Free(o))
      ensures heapStart + o + HEADER_SIZE < WORD_LIMIT
      ensures var ptr: Word := heapStart + o + HEADER_SIZE;
              var i := IndexOf(blocks, o);
              && HasHeader(ptr) && IndexOfPointer(ptr) == i
              && FreeAt(ptr - HEADER_SIZE) == (if blocks[i].free then 1 else 0)
              && (!blocks[i].free ==> IsLive(ptr))
    {
      var i := IndexOf(blocks, o);
      IndexOfSound(blocks, o);
      HeaderFields(i);
      if !blocks[i].free {
        LiveIsBlocks(blocks, Alloc(o, blocks[i].size));
      }
    }

    /** `free` of the block at offset `o`, as a step of a run. */
    method FreeOffset(o: nat) returns (r: Outcome<()>)
      requires Valid() && Legal(blocks, Call.Free(o))
      modifies ram, this`blocks, this`heapUsed
      ensures Valid()
      ensures match Step(old(blocks), Call.Free(o)) case Panicked => r == Panicked case Done(bs) => r.Done? && blocks == bs
      ensures forall k :: 0 <= k < ram.Length && !HeaderWord(heapStart, old(blocks), k) ==> ram[k] == old(ram[k])
    {
      OffsetPointer(o);
      r := Free(heapStart + o + HEADER_SIZE);
    }

    /** One call of a run, as an actual call of `malloc` or `free`. */
    method Perform(c: Call) returns (r: Outcome<()>)
      requires Valid() && Legal(blocks, c)
      modifies ram, this`blocks, this`heapUsed
      ensures Valid()
      ensures match Step(old(blocks), c) case Panicked => r == Panicked case Done(bs) => r.Done? && blocks == bs
      ensures r.Done? ==>
                forall x, k :: old(Owned(x, k)) && c != Call.Free(x.offset) && 0 <= k < ram.Length ==>
                  Owned(x, k) && ram[k] == old(ram[k])
    {
      PayloadsApart(heapStart, blocks);
      match c
      case Malloc(n) =>
        var p := Malloc(n);
        r := if p.Done? then Done(()) else Panicked;
        if p.Done? {
          MallocKeepsLive(old(blocks), n);
          PayloadsApart(heapStart, blocks);
        }
      case Free(o) =>
        FreeKeepsLive(blocks, o);
        r := FreeOffset(o);
      case FreeNull =>
        r := Free(0);
    }

    /**
     Any run of calls does to memory what `Run` does to the list of blocks, and leaves alone every payload word of an
     allocation that the run does not free.
     */
    method Replay(calls: seq<Call>) returns (r: Outcome<()>)
      requires Valid() && LegalRun(blocks, calls)
      modifies ram, this`blocks, this`heapUsed
      ensures Valid()
      ensures match Run(old(blocks), calls) case Panicked => r == Panicked case Done(bs) => r.Done? && blocks == bs
      ensures r.Done? ==>
                forall x, k :: old(Owned(x, k)) && Call.Free(x.offset) !in calls && 0 <= k < ram.Length ==>
                  Owned(x, k) && ram[k] == old(ram[k])
    {
      var i := 0;
      while i < |calls|
        invariant i <= |calls| && Valid() && LegalRun(blocks, calls[i..])
        invariant Run(old(blocks), calls) == Run(blocks, calls[i..])
        invariant forall x, k :: old(Owned(x, k)) && Call.Free(x.offset) !in calls && 0 <= k < ram.Length ==>
                    Owned(x, k) && ram[k] == old(ram[k])
      {
        assert calls[i..][0] == calls[i] && calls[i..][1..] == calls[i + 1..];
        r := Perform(calls[i]);
        if r == Panicked {
          return;
        }
        i := i + 1;
      }
      r := Done(());
    }
  }
}
