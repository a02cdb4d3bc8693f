/**
 The physical frame allocator of mm/pmm.c: a bitmap of used frames and a separately kept count of the free ones.
 */
module Frames {
  import opened Words
  import opened Bits
  import opened Bitmap

  const FRAME_SIZE := 4096
  const MAX_FRAMES := 0x10_0000          // frames in a 32-bit physical address space
  const TOTAL_MEMORY := 128 * 1024 * 1024
  const MEMORY_USABLE := 1
  const LOW_MEMORY := 0x10_0000

  /** An entry of the memory map: 64-bit base and length, and a type. */
  datatype Region = Region(base: nat, length: nat, kind: nat)

  /** The first frame and the number of frames that `mark_used(start, length)` and `mark_free(start, length)` visit. */
  function FirstFrame(start: Word): nat {
    start / FRAME_SIZE
  }

  function FrameCount(length: Word): nat {
    Wrap(length + FRAME_SIZE - 1) / FRAME_SIZE
  }

  predicate Covers(start: Word, length: Word, f: nat) {
    FirstFrame(start) <= f < FirstFrame(start) + FrameCount(length)
  }

  class FrameAllocator {
    const bitmap: array<Word>
    const totalFrames: nat
    var freeCount: Word
    ghost var free: set<nat>    // the frames whose bit is clear

    ghost predicate Valid()
      reads this, bitmap
    {
      && totalFrames == WORD_BITS * bitmap.Length && totalFrames <= MAX_FRAMES
      && free == FreeFrames(bitmap[..])
      && freeCount == |free|
    }

    /** bitmap_test */
    predicate Test(f: nat)
      requires f < WORD_BITS * bitmap.Length
      reads this, bitmap
    {
      And(bitmap[f / WORD_BITS], Mask(f % WORD_BITS)) != 0
    }

    lemma TestIsUsed(f: nat)
      requires f < WORD_BITS * bitmap.Length && free == FreeFrames(bitmap[..])
      ensures Test(f) <==> f !in free
    {
      AndPow(bitmap[f / WORD_BITS], f % WORD_BITS);
    }

    lemma FreeBounded()
      requires Valid()
      ensures |free| <= totalFrames
      ensures forall f :: f in free ==> f < totalFrames
    {
      SubsetOfPrefix(free, totalFrames);
    }

    /** bitmap_set */
    method Set(f: nat)
      requires f < WORD_BITS * bitmap.Length && free == FreeFrames(bitmap[..])
      modifies bitmap, this`free
      ensures bitmap[..] == WithUsed(old(bitmap[..]), f)
      ensures free == old(free) - {f} == FreeFrames(bitmap[..])
    {
      MarkUsed(bitmap[..], f);
      bitmap[f / WORD_BITS] := SetBit(bitmap[f / WORD_BITS], f % WORD_BITS);
      free := free - {f};
    }

    /** bitmap_clear */
    method Clear(f: nat)
      requires f < WORD_BITS * bitmap.Length && free == FreeFrames(bitmap[..])
      modifies bitmap, this`free
      ensures bitmap[..] == WithFree(old(bitmap[..]), f)
      ensures free == old(free) + {f} == FreeFrames(bitmap[..])
    {
      MarkFree(bitmap[..], f);
      bitmap[f / WORD_BITS] := ClearBit(bitmap[f / WORD_BITS], f % WORD_BITS);
      free := free + {f};
    }

    /** The body of mark_used's loop; its guard on the counter never blocks the decrement, or `Valid` would fail. */
    method UseIfFree(frame: nat)
      requires Valid()
      modifies this`freeCount, this`free, bitmap
      ensures Valid() && free == old(free) - {frame}
    {
      if frame < totalFrames {
        TestIsUsed(frame);
        if !Test(frame) {
          Set(frame);
          if freeCount > 0 {
            freeCount := freeCount - 1;
          }
        }
      } else {
        FreeBounded();
      }
    }

    /** The body of mark_free's loop. */
    method FreeIfUsed(frame: nat)
      requires Valid()
      modifies this`freeCount, this`free, bitmap
      ensures Valid() && free == old(free) + (if frame < totalFrames then {frame} else {})
    {
      if frame < totalFrames {
        TestIsUsed(frame);
        if Test(frame) {
          FreeBounded();
          Clear(frame);
          freeCount := freeCount + 1;
        }
      }
    }

    method MarkRangeUsed(start: Word, length: Word)
      requires Valid()
      modifies this`freeCount, this`free, bitmap
      ensures Valid()
      ensures forall f: nat :: f in free <==> f in old(free) && !Covers(start, length, f)
    {
      var frame := start / FRAME_SIZE;
      var count := Wrap(length as int + FRAME_SIZE - 1) / FRAME_SIZE;
      for i := 0 to count
        invariant Valid()
        invariant forall f :: f in free <==> f in old(free) && !(frame <= f < frame + i)
      {
        UseIfFree(frame + i);
      }
    }

    method MarkRangeFree(start: Word, length: Word)
      requires Valid()
      modifies this`freeCount, this`free, bitmap
      ensures Valid()
      ensures forall f: nat :: f in free <==> f in old(free) || (Covers(start, length, f) && f < totalFrames)
    {
      var frame := start / FRAME_SIZE;
      var count := Wrap(length as int + FRAME_SIZE - 1) / FRAME_SIZE;
      for i := 0 to count
        invariant Valid()
        invariant forall f :: f in free <==> f in old(free) || (frame <= f < frame + i && f < totalFrames)
      {
        FreeIfUsed(frame + i);
      }
    }

    /** The allocator with every frame used: the state before the memory map is walked. */
    constructor (totalFrames: nat)
      requires totalFrames % WORD_BITS == 0 && totalFrames <= MAX_FRAMES
      ensures Valid() && fresh(bitmap) && this.totalFrames == totalFrames && free == {}
    {
      this.totalFrames := totalFrames;
      bitmap := new Word[totalFrames / WORD_BITS];
      freeCount := 0;
      free := {};
      new;
      for i := 0 to bitmap.Length
        invariant forall j :: 0 <= j < i ==> bitmap[j] == FULL
        invariant freeCount == 0 && free == {}
      {
        bitmap[i] := FULL;
      }
      forall f: nat | f < WORD_BITS * bitmap.Length ensures Used(bitmap[..], f) {
        FullWordIff(bitmap[..], f / WORD_BITS);
      }
    }

    /** The inner loop of the scan: the lowest free frame of word `i`, if it has one. */
    method ScanWord(i: nat) returns (found: bool, frame: nat)
      requires Valid() && i < bitmap.Length
      ensures found ==> WORD_BITS * i <= frame < WORD_BITS * i + WORD_BITS && frame in free
      ensures forall f: nat :: WORD_BITS * i <= f < (if found then frame else WORD_BITS * i + WORD_BITS) ==> f !in free
    {
      frame := 0;
      for j := 0 to WORD_BITS
        invariant forall f: nat :: WORD_BITS * i <= f < WORD_BITS * i + j ==> f !in free
      {
        frame := i * WORD_BITS + j;
        TestIsUsed(frame);
        if !Test(frame) {
          return true, frame;
        }
      }
      found := false;
    }

    method AllocFrame() returns (r: Outcome<Word>)
      requires Valid()
      modifies this`freeCount, this`free, bitmap
      ensures Valid()
      ensures r == Panicked <==> old(free) == {}
      ensures r == Panicked ==> free == old(free) && bitmap[..] == old(bitmap[..])
      ensures r.Done? ==>
                && r.value % FRAME_SIZE == 0
                && var f := r.value / FRAME_SIZE;
                   && f in old(free) && (forall g :: g in old(free) ==> f <= g)
                   && free == old(free) - {f}
                   && f < totalFrames && bitmap[..] == WithUsed(old(bitmap[..]), f)
    {
      if freeCount == 0 {
        return Panicked;
      }
      FreeBounded();
      for i := 0 to bitmap.Length
        invariant freeCount == old(freeCount) && free == old(free) && bitmap[..] == old(bitmap[..])
        invariant forall f: nat :: f < WORD_BITS * i ==> f !in free
      {
        if bitmap[i] != FULL {
          var found, frame := ScanWord(i);
          if found {
            Set(frame);
            freeCount := freeCount - 1;
            return Done(frame * FRAME_SIZE);
          }
        } else {
          FullWordIff(bitmap[..], i);
        }
      }
      NoneFree(free, totalFrames);
      assert false;   // "inconsistent bitmap" cannot be reached
      return Panicked;
    }

    method FreeFrame(address: Word) returns (r: Outcome<()>)
      requires Valid()
      modifies this`freeCount, this`free, bitmap
      ensures Valid()
      ensures var f := address / FRAME_SIZE;
              && (r == Panicked <==> f >= totalFrames || f in old(free))
              && (r == Panicked ==> free == old(free) && bitmap[..] == old(bitmap[..]))
              && (r.Done? ==> free == old(free) + {f} && bitmap[..] == WithFree(old(bitmap[..]), f))
    {
      var frame := address / FRAME_SIZE;
      if frame >= totalFrames {
        return Panicked;
      }
      TestIsUsed(frame);
      if !Test(frame) {
        return Panicked;
      }
      FreeBounded();
      Clear(frame);
      freeCount := freeCount + 1;
      return Done(());
    }

    function FreeCounter(): Word
      reads this
    {
      freeCount
    }

    function UsedCounter(): Word
      reads this
    {
      Wrap(totalFrames - freeCount)
    }

    ghost function UsedFrames(): set<nat>
      reads this
    {
      Prefix(totalFrames) - free
    }

    /** The two counters report how many frames are free and how many are not. */
    lemma CountersAgree()
      requires Valid()
      ensures FreeCounter() == |free| && UsedCounter() == |UsedFrames()|
      ensures FreeCounter() + UsedCounter() == totalFrames
    {
      FreeBounded();
      var all := Prefix(totalFrames);
      assert all == free + UsedFrames() && free !! UsedFrames();
    }
  }

  /** The first `n` frames. */
  ghost function Prefix(n: nat): (s: set<nat>)
    ensures |s| == n && forall f: nat :: f in s <==> f < n
  {
    if n == 0 then {} else Prefix(n - 1) + {n - 1}
  }

  lemma NoneFree(s: set<nat>, n: nat)
    requires forall f: nat :: f < n ==> f !in s
    requires forall f :: f in s ==> f < n
    ensures |s| == 0
  {
    assert s == {};
  }

  lemma {:induction false} SubsetOfPrefix(s: set<nat>, n: nat)
    requires forall f :: f in s ==> f < n
    ensures |s| <= n
  {
    if n > 0 {
      SubsetOfPrefix(s - {n - 1}, n - 1);
    } else {
      assert s == {};
    }
  }
}
