/**
 The heap as a list of blocks in address order, and what `malloc` and `free` do to that list.
 A block's address is not stored: it is where the blocks before it end, so a list of blocks always tiles its span.
 */
module HeapModel {
  import opened Words

  const HEADER_SIZE := 12       // sizeof(struct block_header)
  const HEAP_MAX_SIZE := 0x400000
  const SPLIT_SLACK := 16       // a block is split only when this much payload would remain

  datatype Block = Block(size: nat, free: bool)

  /** A live allocation: the offset of its header from the start of the heap, and its recorded size. */
  datatype Alloc = Alloc(offset: nat, size: nat)

  function Extent(b: Block): nat {
    HEADER_SIZE + b.size
  }

  /** Bytes covered by a list of blocks, headers included. */
  function Span(bs: seq<Block>): nat {
    if bs == [] then 0 else Extent(bs[0]) + Span(bs[1..])
  }

  /** Where the header of block `i` lies, relative to the heap start. */
  function Offset(bs: seq<Block>, i: nat): nat
    requires i <= |bs|
  {
    Span(bs[..i])
  }

  ghost predicate Aligned(bs: seq<Block>) {
    forall i :: 0 <= i < |bs| ==> bs[i].size % 4 == 0
  }

  /** No two neighbouring blocks are both free. */
  ghost predicate Coalesced(bs: seq<Block>) {
    forall i :: 0 <= i < |bs| - 1 ==> !(bs[i].free && bs[i + 1].free)
  }

  ghost predicate Valid(bs: seq<Block>) {
    Aligned(bs) && Coalesced(bs) && Span(bs) == HEAP_MAX_SIZE
  }

  function Initial(): seq<Block> {
    [Block(HEAP_MAX_SIZE - HEADER_SIZE, true)]
  }

  // ----- the two operations

  /** Rounding a request up to a multiple of four, in 32-bit arithmetic. */
  function RoundUp(n: Word): (r: Word)
    ensures r % 4 == 0
    ensures n <= 0xFFFF_FFFC ==> n <= r <= n + 3
    ensures n > 0xFFFF_FFFC ==> r == 0
  {
    if n % 4 != 0 then Wrap(n + (4 - n % 4)) else n
  }

  predicate Fits(b: Block, need: nat) {
    b.free && b.size >= need
  }

  /** The first block that fits, or the length of the list. */
  function FirstFit(bs: seq<Block>, need: nat): (i: nat)
    ensures i <= |bs|
    ensures i < |bs| ==> Fits(bs[i], need)
    ensures forall j :: 0 <= j < i ==> !Fits(bs[j], need)
  {
    if bs == [] || Fits(bs[0], need) then 0 else
      var i := FirstFit(bs[1..], need) + 1;
      assert forall j :: 0 < j < i ==> bs[j] == bs[1..][j - 1];
      i
  }

  function Splits(b: Block, need: nat): bool {
    b.size >= need + HEADER_SIZE + SPLIT_SLACK
  }

  /** What the allocated block becomes: itself, or a block of the exact size followed by a free remainder. */
  function Carve(b: Block, need: nat): seq<Block> {
    if Splits(b, need)
    then [Block(need, false), Block(b.size - need - HEADER_SIZE, true)]
    else [Block(b.size, false)]
  }

  function Allot(bs: seq<Block>, i: nat, need: nat): seq<Block>
    requires i < |bs|
  {
    bs[..i] + Carve(bs[i], need) + bs[i + 1..]
  }

  /** Merges block `i + 1` into block `i`. */
  function Merge(bs: seq<Block>, i: nat): seq<Block>
    requires i + 1 < |bs|
  {
    bs[..i] + [Block(bs[i].size + Extent(bs[i + 1]), bs[i].free)] + bs[i + 2..]
  }

  function MergeNext(bs: seq<Block>, i: nat): seq<Block>
    requires i < |bs|
  {
    if i + 1 < |bs| && bs[i + 1].free then Merge(bs, i) else bs
  }

  function MergePrevious(bs: seq<Block>, i: nat): seq<Block>
    requires i < |bs|
  {
    if i > 0 && bs[i - 1].free then Merge(bs, i - 1) else bs
  }

  function Release(bs: seq<Block>, i: nat): seq<Block>
    requires i < |bs|
  {
    MergePrevious(MergeNext(bs[i := Block(bs[i].size, true)], i), i)
  }

  // ----- what the two operations are about: the set of live allocations

  ghost function LiveFrom(bs: seq<Block>, o: nat): set<Alloc> {
    if bs == [] then {} else
      (if bs[0].free then {} else {Alloc(o, bs[0].size)}) + LiveFrom(bs[1..], o + Extent(bs[0]))
  }

  ghost function Live(bs: seq<Block>): set<Alloc> {
    LiveFrom(bs, 0)
  }

  function LiveBytes(bs: seq<Block>): nat {
    if bs == [] then 0 else (if bs[0].free then 0 else Extent(bs[0])) + LiveBytes(bs[1..])
  }

  function FreeBytes(bs: seq<Block>): nat {
    if bs == [] then 0 else (if bs[0].free then Extent(bs[0]) else 0) + FreeBytes(bs[1..])
  }

  // ----- lists of blocks

  lemma {:induction false} SpanConcat(a: seq<Block>, b: seq<Block>)
    ensures Span(a + b) == Span(a) + Span(b)
  {
    if a == [] {
      assert a + b == b;
    } else {
      assert (a + b)[1..] == a[1..] + b;
      SpanConcat(a[1..], b);
    }
  }

  lemma {:induction false} LiveConcat(a: seq<Block>, b: seq<Block>, o: nat)
    ensures LiveFrom(a + b, o) == LiveFrom(a, o) + LiveFrom(b, o + Span(a))
  {
    if a == [] {
      assert a + b == b;
    } else {
      assert (a + b)[1..] == a[1..] + b;
      LiveConcat(a[1..], b, o + Extent(a[0]));
    }
  }

  lemma {:induction false} LiveBytesConcat(a: seq<Block>, b: seq<Block>)
    ensures LiveBytes(a + b) == LiveBytes(a) + LiveBytes(b)
  {
    if a == [] {
      assert a + b == b;
    } else {
      assert (a + b)[1..] == a[1..] + b;
      LiveBytesConcat(a[1..], b);
    }
  }

  /** The live allocations of a list lie at or after its start, with room for their header and payload. */
  lemma {:induction false} LiveBounds(bs: seq<Block>, o: nat)
    ensures forall x :: x in LiveFrom(bs, o) ==> o <= x.offset && x.offset + HEADER_SIZE + x.size <= o + Span(bs)
  {
    if bs != [] {
      LiveBounds(bs[1..], o + Extent(bs[0]));
    }
  }

  lemma Singleton(b: Block, o: nat)
    ensures Span([b]) == Extent(b)
    ensures LiveFrom([b], o) == if b.free then {} else {Alloc(o, b.size)}
    ensures LiveBytes([b]) == if b.free then 0 else Extent(b)
  {
    assert [b][1..] == [];
  }

  lemma {:induction false} JoinSpan(a: seq<Block>, mid: seq<Block>, c: seq<Block>)
    ensures Span(a + mid + c) == Span(a) + Span(mid) + Span(c)
  {
    SpanConcat(a, mid);
    SpanConcat(a + mid, c);
  }

  lemma {:induction false} JoinLive(a: seq<Block>, mid: seq<Block>, c: seq<Block>)
    ensures Live(a + mid + c) == LiveFrom(a, 0) + LiveFrom(mid, Span(a)) + LiveFrom(c, Span(a) + Span(mid))
  {
    SpanConcat(a, mid);
    LiveConcat(a, mid, 0);
    LiveConcat(a + mid, c, 0);
  }

  lemma {:induction false} JoinLiveBytes(a: seq<Block>, mid: seq<Block>, c: seq<Block>)
    ensures LiveBytes(a + mid + c) == LiveBytes(a) + LiveBytes(mid) + LiveBytes(c)
  {
    LiveBytesConcat(a, mid);
    LiveBytesConcat(a + mid, c);
  }

  lemma {:induction false} Join(a: seq<Block>, mid: seq<Block>, c: seq<Block>)
    ensures Span(a + mid + c) == Span(a) + Span(mid) + Span(c)
    ensures Live(a + mid + c) == LiveFrom(a, 0) + LiveFrom(mid, Span(a)) + LiveFrom(c, Span(a) + Span(mid))
    ensures LiveBytes(a + mid + c) == LiveBytes(a) + LiveBytes(mid) + LiveBytes(c)
  {
    JoinSpan(a, mid, c);
    JoinLive(a, mid, c);
    JoinLiveBytes(a, mid, c);
  }

  lemma NextOffset(bs: seq<Block>, i: nat)
    requires i < |bs|
    ensures Offset(bs, i + 1) == Offset(bs, i) + Extent(bs[i])
    ensures Offset(bs, i + 1) + Span(bs[i + 1..]) == Span(bs)
  {
    assert bs[..i + 1] == bs[..i] + [bs[i]];
    SpanConcat(bs[..i], [bs[i]]);
    Singleton(bs[i], 0);
    assert bs == bs[..i + 1] + bs[i + 1..];
    SpanConcat(bs[..i + 1], bs[i + 1..]);
  }

  /** Replacing block `i` by blocks covering the same bytes moves nothing else. */
  lemma Replace(bs: seq<Block>, i: nat, mid: seq<Block>)
    requires i < |bs| && Span(mid) == Extent(bs[i])
    ensures var cs := bs[..i] + mid + bs[i + 1..];
            && Span(cs) == Span(bs)
            && Live(cs) == LiveFrom(bs[..i], 0) + LiveFrom(mid, Offset(bs, i)) + LiveFrom(bs[i + 1..], Offset(bs, i + 1))
            && LiveBytes(cs) == LiveBytes(bs[..i]) + LiveBytes(mid) + LiveBytes(bs[i + 1..])
  {
    NextOffset(bs, i);
    Join(bs[..i], mid, bs[i + 1..]);
  }

  /** The same three sums read off block `i` itself. */
  lemma Here(bs: seq<Block>, i: nat)
    requires i < |bs|
    ensures Live(bs) == LiveFrom(bs[..i], 0) + (if bs[i].free then {} else {Alloc(Offset(bs, i), bs[i].size)})
                        + LiveFrom(bs[i + 1..], Offset(bs, i + 1))
    ensures LiveBytes(bs) == LiveBytes(bs[..i]) + (if bs[i].free then 0 else Extent(bs[i])) + LiveBytes(bs[i + 1..])
  {
    Singleton(bs[i], Offset(bs, i));
    Replace(bs, i, [bs[i]]);
    assert bs == bs[..i] + [bs[i]] + bs[i + 1..];
  }

  lemma Pair(b: Block, c: Block, o: nat)
    ensures Span([b, c]) == Extent(b) + Extent(c)
    ensures LiveFrom([b, c], o) == LiveFrom([b], o) + LiveFrom([c], o + Extent(b))
    ensures LiveBytes([b, c]) == LiveBytes([b]) + LiveBytes([c])
  {
    assert [b, c] == [b] + [c];
    SpanConcat([b], [c]);
    LiveConcat([b], [c], o);
    LiveBytesConcat([b], [c]);
    Singleton(b, o);
    Singleton(c, o);
  }

  // ----- what each operation does to the live set

  lemma CarveFacts(b: Block, need: nat, o: nat)
    requires Fits(b, need) && need % 4 == 0 && b.size % 4 == 0
    ensures var size := Carve(b, need)[0].size;
            && need <= size <= need + HEADER_SIZE + SPLIT_SLACK - 4
            && size % 4 == 0
            && Span(Carve(b, need)) == Extent(b)
            && LiveFrom(Carve(b, need), o) == {Alloc(o, size)}
            && LiveBytes(Carve(b, need)) == HEADER_SIZE + size
  {
    if Splits(b, need) {
      var x, y := Block(need, false), Block(b.size - need - HEADER_SIZE, true);
      Pair(x, y, o);
      Singleton(x, o);
      Singleton(y, o + Extent(x));
    } else {
      Singleton(Block(b.size, false), o);
    }
  }

  lemma AllotLive(bs: seq<Block>, i: nat, need: nat)
    requires i < |bs| && Fits(bs[i], need) && need % 4 == 0 && bs[i].size % 4 == 0
    ensures Span(Allot(bs, i, need)) == Span(bs)
    ensures Offset(Allot(bs, i, need), i) == Offset(bs, i)
    ensures var size := Allot(bs, i, need)[i].size;
            && need <= size <= need + HEADER_SIZE + SPLIT_SLACK - 4
            && Live(Allot(bs, i, need)) == Live(bs) + {Alloc(Offset(bs, i), size)}
            && LiveBytes(Allot(bs, i, need)) == LiveBytes(bs) + HEADER_SIZE + size
  {
    var mid := Carve(bs[i], need);
    CarveFacts(bs[i], need, Offset(bs, i));
    Replace(bs, i, mid);
    Here(bs, i);
    assert Allot(bs, i, need)[..i] == bs[..i];
  }

  lemma AllotValid(bs: seq<Block>, i: nat, need: nat)
    requires Valid(bs) && i < |bs| && Fits(bs[i], need) && need % 4 == 0
    ensures Valid(Allot(bs, i, need))
  {
    AllotLive(bs, i, need);
    AllotIndices(bs, i, need);
    var cs, grown := Allot(bs, i, need), |Carve(bs[i], need)| - 1;
    forall k | 0 <= k < |cs| ensures cs[k].size % 4 == 0 {
      assert k > i + grown ==> cs[k] == bs[k - grown];
    }
    forall k | 0 <= k < |cs| - 1 ensures !(cs[k].free && cs[k + 1].free) {
      if k + 1 < i {
        assert cs[k + 1] == bs[k + 1];
      } else if k > i + grown {
        assert cs[k] == bs[k - grown] && cs[k + 1] == bs[k - grown + 1];
      } else if k == i + grown {
        assert cs[k + 1] == bs[i + 1];
      }
    }
  }

  /** Where the blocks of a list are once block `i` has been taken. */
  lemma AllotIndices(bs: seq<Block>, i: nat, need: nat)
    requires i < |bs| && Fits(bs[i], need) && need % 4 == 0 && bs[i].size % 4 == 0
    ensures var cs, grown := Allot(bs, i, need), |Carve(bs[i], need)| - 1;
            && 0 <= grown <= 1 && |cs| == |bs| + grown
            && (forall k :: 0 <= k < i ==> cs[k] == bs[k])
            && (forall k :: i + grown < k < |cs| ==> cs[k] == bs[k - grown])
            && !cs[i].free && cs[i].size % 4 == 0 && (grown == 1 ==> cs[i + 1].size % 4 == 0)
  {
  }

  /** Two free blocks, and the block that has their bytes, count for the same. */
  lemma PairAsOne(x: Block, y: Block, o: nat)
    requires x.free && y.free
    ensures var one := [Block(x.size + Extent(y), true)];
            && Span(one) == Span([x, y])
            && LiveFrom(one, o) == LiveFrom([x, y], o) == {}
            && LiveBytes(one) == LiveBytes([x, y]) == 0
  {
    Pair(x, y, o);
    Singleton(x, o);
    Singleton(y, o + Extent(x));
    Singleton(Block(x.size + Extent(y), true), o);
  }

  /** Exchanging the middle of a list for blocks that count for the same. */
  lemma {:induction false} JoinSame(a: seq<Block>, mid: seq<Block>, other: seq<Block>, c: seq<Block>)
    requires Span(mid) == Span(other) && LiveFrom(mid, Span(a)) == LiveFrom(other, Span(a)) && LiveBytes(mid) == LiveBytes(other)
    ensures Span(a + mid + c) == Span(a + other + c)
    ensures Live(a + mid + c) == Live(a + other + c)
    ensures LiveBytes(a + mid + c) == LiveBytes(a + other + c)
  {
    JoinSpan(a, mid, c);
    JoinSpan(a, other, c);
    JoinSameLive(a, mid, other, c);
    JoinLiveBytes(a, mid, c);
    JoinLiveBytes(a, other, c);
  }

  lemma {:induction false} JoinSameLive(a: seq<Block>, mid: seq<Block>, other: seq<Block>, c: seq<Block>)
    requires Span(mid) == Span(other) && LiveFrom(mid, Span(a)) == LiveFrom(other, Span(a))
    ensures Live(a + mid + c) == Live(a + other + c)
  {
    JoinLive(a, mid, c);
    JoinLive(a, other, c);
  }

  lemma JoinPair(a: seq<Block>, x: Block, y: Block, c: seq<Block>)
    requires x.free && y.free
    ensures var one := [Block(x.size + Extent(y), true)];
            && Span(a + one + c) == Span(a + [x, y] + c)
            && Live(a + one + c) == Live(a + [x, y] + c)
            && LiveBytes(a + one + c) == LiveBytes(a + [x, y] + c)
  {
    PairAsOne(x, y, Span(a));
    JoinSame(a, [Block(x.size + Extent(y), true)], [x, y], c);
  }

  lemma MergeParts(bs: seq<Block>, i: nat)
    requires i + 1 < |bs|
    ensures bs == bs[..i] + [bs[i], bs[i + 1]] + bs[i + 2..]
  {
  }

  lemma MergeLive(bs: seq<Block>, i: nat)
    requires i + 1 < |bs| && bs[i].free && bs[i + 1].free
    ensures Span(Merge(bs, i)) == Span(bs)
    ensures Live(Merge(bs, i)) == Live(bs)
    ensures LiveBytes(Merge(bs, i)) == LiveBytes(bs)
  {
    var a, x, y, c := bs[..i], bs[i], bs[i + 1], bs[i + 2..];
    MergeParts(bs, i);
    JoinPair(a, x, y, c);
    assert Merge(bs, i) == a + [Block(x.size + Extent(y), true)] + c;
  }

  /** The free pairs of a list, apart from those that block `i` is part of. */
  ghost predicate CoalescedExcept(bs: seq<Block>, i: int) {
    forall k :: 0 <= k < |bs| - 1 && k != i && k != i - 1 ==> !(bs[k].free && bs[k + 1].free)
  }

  lemma MergeIndices(bs: seq<Block>, i: nat)
    requires i + 1 < |bs|
    ensures |Merge(bs, i)| == |bs| - 1
    ensures forall k :: 0 <= k < i ==> Merge(bs, i)[k] == bs[k]
    ensures forall k :: i < k < |bs| - 1 ==> Merge(bs, i)[k] == bs[k + 1]
    ensures Merge(bs, i)[i] == Block(bs[i].size + Extent(bs[i + 1]), bs[i].free)
  {
  }

  lemma MergeShape(bs: seq<Block>, i: nat)
    requires i + 1 < |bs| && Aligned(bs)
    ensures Aligned(Merge(bs, i)) && |Merge(bs, i)| == |bs| - 1
    ensures forall k :: 0 <= k < i ==> Merge(bs, i)[k] == bs[k]
    ensures forall k :: i < k < |bs| - 1 ==> Merge(bs, i)[k] == bs[k + 1]
    ensures Merge(bs, i)[i].free == bs[i].free
  {
    MergeIndices(bs, i);
    var cs := Merge(bs, i);
    forall k | 0 <= k < |cs| ensures cs[k].size % 4 == 0 {
      assert k > i ==> cs[k] == bs[k + 1];
    }
  }

  /** Setting the free flag of a live block removes exactly that block from the live set. */
  lemma FlagFacts(bs: seq<Block>, i: nat)
    requires i < |bs| && !bs[i].free
    ensures var freed := bs[i := Block(bs[i].size, true)];
            && Span(freed) == Span(bs)
            && Live(freed) == Live(bs) - {Alloc(Offset(bs, i), bs[i].size)}
            && LiveBytes(freed) == LiveBytes(bs) - Extent(bs[i])
  {
    var b := Block(bs[i].size, true);
    assert bs[i := b] == bs[..i] + [b] + bs[i + 1..];
    Singleton(b, Offset(bs, i));
    Replace(bs, i, [b]);
    Here(bs, i);
    NextOffset(bs, i);
    LiveBounds(bs[..i], 0);
    LiveBounds(bs[i + 1..], Offset(bs, i + 1));
  }

  lemma ReleaseLive(bs: seq<Block>, i: nat)
    requires i < |bs| && !bs[i].free
    ensures Span(Release(bs, i)) == Span(bs)
    ensures Live(Release(bs, i)) == Live(bs) - {Alloc(Offset(bs, i), bs[i].size)}
    ensures LiveBytes(Release(bs, i)) == LiveBytes(bs) - Extent(bs[i])
  {
    FlagFacts(bs, i);
    var freed := bs[i := Block(bs[i].size, true)];
    if i + 1 < |freed| && freed[i + 1].free {
      MergeLive(freed, i);
    }
    var next := MergeNext(freed, i);
    if i > 0 && next[i - 1].free {
      MergeLive(next, i - 1);
    }
  }

  lemma ReleaseShape(bs: seq<Block>, i: nat)
    requires Aligned(bs) && Coalesced(bs) && i < |bs| && !bs[i].free
    ensures Aligned(Release(bs, i)) && Coalesced(Release(bs, i))
  {
    var freed := bs[i := Block(bs[i].size, true)];
    assert CoalescedExcept(freed, i);
    if i + 1 < |freed| && freed[i + 1].free {
      MergeShape(freed, i);
    }
    var next := MergeNext(freed, i);
    assert CoalescedExcept(next, i) && (i + 1 < |next| ==> !next[i + 1].free);
    if i > 0 && next[i - 1].free {
      MergeShape(next, i - 1);
    }
  }

  lemma ReleaseValid(bs: seq<Block>, i: nat)
    requires Valid(bs) && i < |bs| && !bs[i].free
    ensures Valid(Release(bs, i))
  {
    ReleaseLive(bs, i);
    ReleaseShape(bs, i);
  }

  // ----- canonical form: the live set determines the heap

  lemma {:induction false} HeadLive(bs: seq<Block>, o: nat)
    requires bs != []
    ensures !bs[0].free ==> Alloc(o, bs[0].size) in LiveFrom(bs, o)
    ensures forall x :: x in LiveFrom(bs, o) && x.offset < o + Extent(bs[0]) ==> !bs[0].free && x == Alloc(o, bs[0].size)
  {
    LiveBounds(bs[1..], o + Extent(bs[0]));
  }

  /** A free block of a coalesced list is a maximal gap: a live block begins where it ends, unless the list does. */
  lemma FreeHeadEnds(bs: seq<Block>, o: nat)
    requires bs != [] && bs[0].free && Coalesced(bs)
    ensures |bs| > 1 ==> Alloc(o + Extent(bs[0]), bs[1].size) in LiveFrom(bs, o)
    ensures |bs| == 1 ==> LiveFrom(bs, o) == {} && Span(bs) == Extent(bs[0])
  {
    if |bs| > 1 {
      HeadLive(bs[1..], o + Extent(bs[0]));
    }
  }

  lemma HeadsAgree(bs: seq<Block>, cs: seq<Block>, o: nat)
    requires Coalesced(bs) && Coalesced(cs)
    requires Span(bs) == Span(cs) && LiveFrom(bs, o) == LiveFrom(cs, o)
    requires bs != [] && cs != [] && (bs[0].free ==> cs[0].free ==> Extent(bs[0]) <= Extent(cs[0]))
    ensures bs[0] == cs[0]
  {
    HeadLive(bs, o);
    HeadLive(cs, o);
    if bs[0].free && cs[0].free {
      FreeHeadEnds(bs, o);
      FreeHeadEnds(cs, o);
    }
  }

  lemma {:induction false} CanonicalFrom(bs: seq<Block>, cs: seq<Block>, o: nat)
    requires Coalesced(bs) && Coalesced(cs)
    requires Span(bs) == Span(cs) && LiveFrom(bs, o) == LiveFrom(cs, o)
    ensures bs == cs
  {
    if bs != [] && cs != [] {
      if bs[0].free && cs[0].free && Extent(bs[0]) > Extent(cs[0]) {
        HeadsAgree(cs, bs, o);
      } else {
        HeadsAgree(bs, cs, o);
      }
      LiveBounds(bs[1..], o + Extent(bs[0]));
      LiveBounds(cs[1..], o + Extent(cs[0]));
      assert Alloc(o, bs[0].size) !in LiveFrom(bs[1..], o + Extent(bs[0]));
      assert Alloc(o, bs[0].size) !in LiveFrom(cs[1..], o + Extent(bs[0]));
      CanonicalFrom(bs[1..], cs[1..], o + Extent(bs[0]));
      assert bs == [bs[0]] + bs[1..] && cs == [cs[0]] + cs[1..];
    }
  }

  /** Two valid heaps with the same live allocations are the same list of blocks. */
  lemma Canonical(bs: seq<Block>, cs: seq<Block>)
    requires Valid(bs) && Valid(cs) && Live(bs) == Live(cs)
    ensures bs == cs
  {
    CanonicalFrom(bs, cs, 0);
  }
}
