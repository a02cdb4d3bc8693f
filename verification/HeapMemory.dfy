/**
 How a list of blocks is laid out in memory: a three-word header (size, free flag, address of the next header) in
 front of each payload, all inside the memory being managed.  Memory is a sequence of 32-bit words; word `k` holds
 the bytes at addresses `4 * k` to `4 * k + 3`.
 */
module HeapMemory {
  import opened Words
  import opened HeapModel
  import opened HeapRuns

  type Memory = seq<Word>

  /** The heap occupies whole words of existing memory, and no header lies at the null address. */
  ghost predicate Placed(mem: Memory, start: Word) {
    start % 4 == 0 && 0 < start && start + HEAP_MAX_SIZE <= 4 * |mem| < WORD_LIMIT
  }

  /** Index of the first header word of block `i`. */
  ghost function HeaderIndex(start: Word, bs: seq<Block>, i: nat): nat
    requires i <= |bs|
  {
    (start + Offset(bs, i)) / 4
  }

  ghost function NextAddress(start: Word, bs: seq<Block>, i: nat): nat
    requires i < |bs|
  {
    if i + 1 < |bs| then start + Offset(bs, i + 1) else 0
  }

  ghost predicate HeaderAt(mem: Memory, start: Word, bs: seq<Block>, i: nat)
    requires i < |bs|
  {
    var w := HeaderIndex(start, bs, i);
    && w + 3 <= |mem|
    && mem[w] == bs[i].size
    && mem[w + 1] == (if bs[i].free then 1 else 0)
    && mem[w + 2] == NextAddress(start, bs, i)
  }

  ghost predicate Represents(mem: Memory, start: Word, bs: seq<Block>) {
    forall i :: 0 <= i < |bs| ==> HeaderAt(mem, start, bs, i)
  }

  ghost predicate HeaderWord(start: Word, bs: seq<Block>, k: int) {
    exists i :: 0 <= i < |bs| && HeaderIndex(start, bs, i) <= k < HeaderIndex(start, bs, i) + 3
  }

  ghost predicate PayloadWord(start: Word, x: Alloc, k: int) {
    start + x.offset + HEADER_SIZE <= 4 * k < start + x.offset + HEADER_SIZE + x.size
  }

  /** A list of blocks that fills the heap: what `malloc` and `free` keep even in the middle of a call. */
  ghost predicate Tiled(bs: seq<Block>) {
    Aligned(bs) && Span(bs) == HEAP_MAX_SIZE
  }

  // ----- header addresses

  lemma {:induction false} SpanAligned(bs: seq<Block>)
    requires Aligned(bs)
    ensures Span(bs) % 4 == 0
  {
    if bs != [] {
      assert bs[0].size % 4 == 0 && Aligned(bs[1..]);
      SpanAligned(bs[1..]);
    }
  }

  /** Headers are word aligned and inside the heap, and a block's header and payload end before the next header. */
  lemma HeaderPosition(bs: seq<Block>, i: nat)
    requires Tiled(bs) && i < |bs|
    ensures Offset(bs, i) % 4 == 0
    ensures Offset(bs, i) + Extent(bs[i]) <= HEAP_MAX_SIZE
    ensures i + 1 < |bs| ==> Offset(bs, i + 1) + HEADER_SIZE <= HEAP_MAX_SIZE
  {
    SpanAligned(bs[..i]);
    NextOffset(bs, i);
    if i + 1 < |bs| {
      NextOffset(bs, i + 1);
    }
  }

  lemma HeadersApart(start: Word, bs: seq<Block>, i: nat, j: nat)
    requires Tiled(bs) && start % 4 == 0 && i < j < |bs|
    ensures HeaderIndex(start, bs, i) + 3 + bs[i].size / 4 <= HeaderIndex(start, bs, j)
  {
    HeaderPosition(bs, i);
    HeaderPosition(bs, j);
    OffsetIncreasing(bs, i, j);
  }

  /** The words of a live payload are not header words. */
  lemma PayloadNotHeader(start: Word, bs: seq<Block>, x: Alloc, k: int)
    requires Tiled(bs) && start % 4 == 0 && x in Live(bs) && PayloadWord(start, x, k)
    ensures !HeaderWord(start, bs, k)
  {
    forall i | 0 <= i < |bs|
      ensures !(HeaderIndex(start, bs, i) <= k < HeaderIndex(start, bs, i) + 3)
    {
      HeadersOutsidePayloads(bs, x, i);
      HeaderPosition(bs, i);
    }
  }

  lemma PayloadsApart(start: Word, bs: seq<Block>)
    requires Tiled(bs) && start % 4 == 0
    ensures forall x, k :: x in Live(bs) && PayloadWord(start, x, k) ==> !HeaderWord(start, bs, k)
  {
    forall x, k | x in Live(bs) && PayloadWord(start, x, k) ensures !HeaderWord(start, bs, k) {
      PayloadNotHeader(start, bs, x, k);
    }
  }

  // ----- the three header updates

  function SetFree(bs: seq<Block>, i: nat, free: bool): seq<Block>
    requires i < |bs|
  {
    bs[i := Block(bs[i].size, free)]
  }

  function Split(bs: seq<Block>, i: nat, need: nat): seq<Block>
    requires i < |bs| && need + HEADER_SIZE <= bs[i].size
  {
    bs[..i] + [Block(need, bs[i].free), Block(bs[i].size - need - HEADER_SIZE, true)] + bs[i + 1..]
  }

  /** What malloc does to the chosen block, header by header. */
  lemma AllotSteps(bs: seq<Block>, i: nat, need: nat)
    requires i < |bs| && Fits(bs[i], need)
    ensures Allot(bs, i, need) == SetFree(if Splits(bs[i], need) then Split(bs, i, need) else bs, i, false)
  {
  }

  lemma SplitThenMerge(bs: seq<Block>, i: nat, need: nat)
    requires i < |bs| && need + HEADER_SIZE <= bs[i].size
    ensures Merge(Split(bs, i, need), i) == bs
  {
  }

  lemma {:induction false} MergeOffsets(bs: seq<Block>, i: nat, k: nat)
    requires i + 1 < |bs| && k < |bs|
    ensures Span(Merge(bs, i)) == Span(bs)
    ensures k <= i ==> Offset(Merge(bs, i), k) == Offset(bs, k)
    ensures k > i ==> Offset(Merge(bs, i), k) == Offset(bs, k + 1)
  {
    var one := Block(bs[i].size + Extent(bs[i + 1]), bs[i].free);
    var cs := Merge(bs, i);
    if k <= i {
      assert cs[..k] == bs[..k];
    } else {
      assert cs[..k] == bs[..i] + [one] + bs[i + 2..k + 1];
      assert bs[..k + 1] == bs[..i] + [bs[i], bs[i + 1]] + bs[i + 2..k + 1];
      Join(bs[..i], [one], bs[i + 2..k + 1]);
      Join(bs[..i], [bs[i], bs[i + 1]], bs[i + 2..k + 1]);
      Pair(bs[i], bs[i + 1], 0);
      Singleton(one, 0);
    }
    assert bs == bs[..i] + [bs[i], bs[i + 1]] + bs[i + 2..];
    Join(bs[..i], [one], bs[i + 2..]);
    Join(bs[..i], [bs[i], bs[i + 1]], bs[i + 2..]);
    Pair(bs[i], bs[i + 1], 0);
    Singleton(one, 0);
  }

  lemma {:induction false} SetFreeOffsets(bs: seq<Block>, i: nat, free: bool, k: nat)
    requires i < |bs| && k <= |bs|
    ensures Offset(SetFree(bs, i, free), k) == Offset(bs, k)
    decreases k
  {
    if k > 0 {
      SetFreeOffsets(bs, i, free, k - 1);
      NextOffset(bs, k - 1);
      NextOffset(SetFree(bs, i, free), k - 1);
    }
  }

  /** Two block lists whose blocks `i` and `j` have the same header contents at the same place. */
  ghost predicate SameHeader(start: Word, bs: seq<Block>, i: nat, cs: seq<Block>, j: nat)
    requires i < |bs| && j < |cs|
  {
    bs[i] == cs[j] && Offset(bs, i) == Offset(cs, j) && NextAddress(start, bs, i) == NextAddress(start, cs, j)
  }

  lemma SetFreeRepresented(mem: Memory, start: Word, bs: seq<Block>, i: nat, free: bool)
    requires Tiled(bs) && Placed(mem, start) && Represents(mem, start, bs) && i < |bs|
    ensures HeaderIndex(start, bs, i) + 3 <= |mem|
    ensures var mem' := mem[HeaderIndex(start, bs, i) + 1 := if free then 1 else 0];
            Represents(mem', start, SetFree(bs, i, free))
  {
    assert HeaderAt(mem, start, bs, i);
    var cs := SetFree(bs, i, free);
    var mem' := mem[HeaderIndex(start, bs, i) + 1 := if free then 1 else 0];
    forall k | 0 <= k < |cs| ensures HeaderAt(mem', start, cs, k) {
      SetFreeOffsets(bs, i, free, k);
      SetFreeOffsets(bs, i, free, k + 1);
      assert HeaderAt(mem, start, bs, k);
      if k < i {
        HeadersApart(start, bs, k, i);
      } else if i < k {
        HeadersApart(start, bs, i, k);
      }
    }
  }

  lemma MergeSameHeader(start: Word, bs: seq<Block>, i: nat, k: nat)
    requires i + 1 < |bs| && k < |bs| - 1 && k != i
    ensures SameHeader(start, bs, if k < i then k else k + 1, Merge(bs, i), k)
  {
    MergeOffsets(bs, i, k);
    MergeOffsets(bs, i, k + 1);
  }

  function Merged(mem: Memory, w: nat, size: Word, next: Word): Memory
    requires w + 3 <= |mem|
  {
    mem[w := size][w + 2 := next]
  }

  lemma MergeRepresented(mem: Memory, start: Word, bs: seq<Block>, i: nat, size: Word, next: Word)
    requires Tiled(bs) && Placed(mem, start) && Represents(mem, start, bs) && i + 1 < |bs|
    requires size == bs[i].size + Extent(bs[i + 1]) && next == NextAddress(start, bs, i + 1)
    ensures HeaderIndex(start, bs, i) + 3 <= |mem|
    ensures Represents(Merged(mem, HeaderIndex(start, bs, i), size, next), start, Merge(bs, i))
  {
    assert HeaderAt(mem, start, bs, i);
    var cs, w := Merge(bs, i), HeaderIndex(start, bs, i);
    var mem' := Merged(mem, w, size, next);
    forall k | 0 <= k < |cs| ensures HeaderAt(mem', start, cs, k) {
      MergedHeader(mem, mem', start, bs, i, k);
    }
  }

  /** The headers after the two stores of a merge: that of the block that has grown, and the others. */
  lemma MergedHeader(mem: Memory, mem': Memory, start: Word, bs: seq<Block>, i: nat, k: nat)
    requires Tiled(bs) && Placed(mem, start) && Represents(mem, start, bs) && i + 1 < |bs| && k < |bs| - 1
    requires var w := HeaderIndex(start, bs, i);
             && w + 3 <= |mem| == |mem'|
             && mem'[w] == bs[i].size + Extent(bs[i + 1]) && mem'[w + 2] == NextAddress(start, bs, i + 1)
             && forall x :: 0 <= x < |mem| && x != w && x != w + 2 ==> mem'[x] == mem[x]
    ensures HeaderAt(mem', start, Merge(bs, i), k)
  {
    if k == i {
      assert HeaderAt(mem, start, bs, i);
      MergeOffsets(bs, i, i);
      MergeOffsets(bs, i, i + 1);
    } else {
      MergeSameHeader(start, bs, i, k);
      var j := if k < i then k else k + 1;
      assert HeaderAt(mem, start, bs, j);
      HeadersApart(start, bs, if k < i then k else i, if k < i then i else j);
    }
  }

  lemma MergeTiled(bs: seq<Block>, i: nat)
    requires Tiled(bs) && i + 1 < |bs|
    ensures Tiled(Merge(bs, i))
  {
    MergeOffsets(bs, i, 0);
    MergeShape(bs, i);
  }

  lemma SplitTiled(bs: seq<Block>, i: nat, need: nat)
    requires Tiled(bs) && i < |bs| && need % 4 == 0 && need + HEADER_SIZE <= bs[i].size
    ensures Tiled(Split(bs, i, need))
  {
    var cs := Split(bs, i, need);
    SplitThenMerge(bs, i, need);
    MergeOffsets(cs, i, 0);
    assert forall k :: 0 <= k < |cs| ==> k < i || k == i || k == i + 1 || cs[k] == bs[k - 1];
  }

  function Divided(mem: Memory, w: nat, v: nat, rest: Word, next: Word, need: Word, address: Word): Memory
    requires w + 3 <= |mem| && v + 3 <= |mem|
  {
    mem[v := rest][v + 1 := 1][v + 2 := next][w := need][w + 2 := address]
  }

  /** Where the remainder of a split begins, and that its header lies beyond the header of the block it is cut from. */
  lemma SplitPosition(start: Word, bs: seq<Block>, i: nat, need: nat)
    requires Tiled(bs) && start % 4 == 0 && i < |bs| && need % 4 == 0 && need + HEADER_SIZE <= bs[i].size
    ensures Offset(Split(bs, i, need), i) == Offset(bs, i)
    ensures Offset(Split(bs, i, need), i + 1) == Offset(bs, i) + HEADER_SIZE + need
    ensures HeaderIndex(start, Split(bs, i, need), i + 1) == HeaderIndex(start, bs, i) + 3 + need / 4
    ensures NextAddress(start, bs, i) == NextAddress(start, Split(bs, i, need), i + 1)
  {
    var cs := Split(bs, i, need);
    SplitThenMerge(bs, i, need);
    MergeOffsets(cs, i, i);
    MergeOffsets(cs, i, i + 1);
    NextOffset(cs, i);
    HeaderPosition(bs, i);
  }

  /** A split leaves the headers of all other blocks as they were. */
  lemma SplitKept(mem: Memory, mem': Memory, start: Word, bs: seq<Block>, i: nat, need: nat, k: nat)
    requires Tiled(bs) && Placed(mem, start) && Represents(mem, start, bs) && |mem'| == |mem|
    requires i < |bs| && need % 4 == 0 && need + HEADER_SIZE <= bs[i].size
    requires k < |bs| + 1 && k != i && k != i + 1
    requires var w := HeaderIndex(start, bs, i);
             forall x :: 0 <= x < |mem| && !(w <= x < w + 3) && !(w + 3 + need / 4 <= x < w + 6 + need / 4) ==> mem'[x] == mem[x]
    ensures HeaderAt(mem', start, Split(bs, i, need), k)
  {
    var cs := Split(bs, i, need);
    SplitThenMerge(bs, i, need);
    SplitTiled(bs, i, need);
    SplitPosition(start, bs, i, need);
    var j := if k < i then k else k - 1;
    MergeSameHeader(start, cs, i, j);
    assert HeaderAt(mem, start, bs, j);
    if k < i {
      HeadersApart(start, cs, k, i);
    } else {
      HeadersApart(start, cs, i + 1, k);
    }
  }

  /** Where the five stores of a split go. */
  lemma DividedAt(mem: Memory, w: nat, v: nat, rest: Word, next: Word, need: Word, address: Word)
    requires w + 3 <= v && v + 3 <= |mem|
    ensures var mem' := Divided(mem, w, v, rest, next, need, address);
            && |mem'| == |mem|
            && mem'[w] == need && mem'[w + 1] == mem[w + 1] && mem'[w + 2] == address
            && mem'[v] == rest && mem'[v + 1] == 1 && mem'[v + 2] == next
            && forall x :: 0 <= x < |mem| && !(w <= x < w + 3) && !(v <= x < v + 3) ==> mem'[x] == mem[x]
  {
  }

  lemma SplitHeaders(mem: Memory, mem': Memory, start: Word, bs: seq<Block>, i: nat, need: nat, k: nat)
    requires Tiled(bs) && Placed(mem, start) && Represents(mem, start, bs) && |mem'| == |mem|
    requires i < |bs| && need % 4 == 0 && need + HEADER_SIZE <= bs[i].size && k <= |bs|
    requires HeaderIndex(start, bs, i) + need / 4 + 6 <= |mem|
    requires var w, v := HeaderIndex(start, bs, i), HeaderIndex(start, bs, i) + 3 + need / 4;
             && mem'[w] == need && mem'[w + 1] == mem[w + 1] && mem'[w + 2] == start + Offset(bs, i) + HEADER_SIZE + need
             && mem'[v] == bs[i].size - need - HEADER_SIZE && mem'[v + 1] == 1 && mem'[v + 2] == NextAddress(start, bs, i)
             && forall x :: 0 <= x < |mem| && !(w <= x < w + 3) && !(v <= x < v + 3) ==> mem'[x] == mem[x]
    ensures HeaderAt(mem', start, Split(bs, i, need), k)
  {
    SplitPosition(start, bs, i, need);
    assert HeaderAt(mem, start, bs, i);
    if k != i && k != i + 1 {
      SplitKept(mem, mem', start, bs, i, need, k);
    }
  }

  /** The remainder's header is written first, then the size and link of the block in front of it. */
  lemma SplitRepresented(mem: Memory, start: Word, bs: seq<Block>, i: nat, need: Word, rest: Word, next: Word, address: Word)
    requires Tiled(bs) && Placed(mem, start) && Represents(mem, start, bs)
    requires i < |bs| && need % 4 == 0 && need + HEADER_SIZE + rest == bs[i].size
    requires next == NextAddress(start, bs, i) && address == start + Offset(bs, i) + HEADER_SIZE + need
    ensures address / 4 + 3 <= |mem| && HeaderIndex(start, bs, i) + 3 <= address / 4
    ensures Represents(Divided(mem, HeaderIndex(start, bs, i), address / 4, rest, next, need, address), start, Split(bs, i, need))
  {
    var w, v := HeaderIndex(start, bs, i), address / 4;
    SplitWords(mem, start, bs, i, need);
    DividedAt(mem, w, v, rest, next, need, address);
    var mem' := Divided(mem, w, v, rest, next, need, address);
    forall k | 0 <= k < |Split(bs, i, need)| ensures HeaderAt(mem', start, Split(bs, i, need), k) {
      SplitHeaders(mem, mem', start, bs, i, need, k);
    }
  }

  lemma SplitWords(mem: Memory, start: Word, bs: seq<Block>, i: nat, need: nat)
    requires Tiled(bs) && Placed(mem, start) && i < |bs| && need % 4 == 0 && need + HEADER_SIZE <= bs[i].size
    ensures var v := (start + Offset(bs, i) + HEADER_SIZE + need) / 4;
            v == HeaderIndex(start, bs, i) + 3 + need / 4 && v + 3 <= |mem|
  {
    SplitTiled(bs, i, need);
    SplitPosition(start, bs, i, need);
    HeaderPosition(Split(bs, i, need), i + 1);
  }

  lemma SetFreeHeaderWords(start: Word, bs: seq<Block>, i: nat, free: bool)
    requires i < |bs|
    ensures forall k :: HeaderWord(start, SetFree(bs, i, free), k) <==> HeaderWord(start, bs, k)
  {
    var cs := SetFree(bs, i, free);
    forall j | 0 <= j < |bs| ensures HeaderIndex(start, cs, j) == HeaderIndex(start, bs, j) {
      SetFreeOffsets(bs, i, free, j);
    }
  }

  /** Merging block `i` with the next one moves no header up to block `i`. */
  lemma MergeNextHeaderWords(start: Word, bs: seq<Block>, i: nat)
    requires i < |bs|
    ensures HeaderIndex(start, MergeNext(bs, i), i) == HeaderIndex(start, bs, i)
    ensures i > 0 ==> HeaderIndex(start, MergeNext(bs, i), i - 1) == HeaderIndex(start, bs, i - 1)
  {
    if i + 1 < |bs| && bs[i + 1].free {
      MergeOffsets(bs, i, i);
      if i > 0 {
        MergeOffsets(bs, i, i - 1);
      }
    }
  }

  /** Writes that stay clear of the headers leave the list of blocks as it is. */
  lemma RepresentsFrame(mem: Memory, mem': Memory, start: Word, bs: seq<Block>)
    requires Represents(mem, start, bs) && |mem'| == |mem|
    requires forall k :: 0 <= k < |mem| && HeaderWord(start, bs, k) ==> mem'[k] == mem[k]
    ensures Represents(mem', start, bs)
  {
    forall i | 0 <= i < |bs| ensures HeaderAt(mem', start, bs, i) {
      assert HeaderAt(mem, start, bs, i);
      var w := HeaderIndex(start, bs, i);
      assert HeaderWord(start, bs, w) && HeaderWord(start, bs, w + 1) && HeaderWord(start, bs, w + 2);
    }
  }

  /** Header words lie within the heap. */
  lemma HeaderInHeap(start: Word, bs: seq<Block>, k: int)
    requires Tiled(bs) && start % 4 == 0 && HeaderWord(start, bs, k)
    ensures start <= 4 * k && 4 * k + 4 <= start + HEAP_MAX_SIZE
  {
    var i :| 0 <= i < |bs| && HeaderIndex(start, bs, i) <= k < HeaderIndex(start, bs, i) + 3;
    HeaderPosition(bs, i);
  }
}
