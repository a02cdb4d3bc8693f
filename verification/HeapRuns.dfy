/**
 Runs of the allocator: sequences of `malloc` and `free` calls, and what holds after any of them.
 */
module HeapRuns {
  import opened Words
  import opened HeapModel

  // ----- finding the block a pointer belongs to

  /** The block whose header lies at offset `o`, or the length of the list. */
  function IndexOf(bs: seq<Block>, o: int): (i: nat)
    ensures i <= |bs|
  {
    if bs == [] || o == 0 then 0 else IndexOf(bs[1..], o - Extent(bs[0])) + 1
  }

  lemma {:induction false} OffsetIncreasing(bs: seq<Block>, i: nat, j: nat)
    requires i < j <= |bs|
    ensures Offset(bs, i) + Extent(bs[i]) <= Offset(bs, j)
    ensures Offset(bs, j) + Span(bs[j..]) == Span(bs)
  {
    NextOffset(bs, j - 1);
    if i < j - 1 {
      OffsetIncreasing(bs, i, j - 1);
    }
  }

  lemma OffsetTail(bs: seq<Block>, i: nat)
    requires 0 < i <= |bs|
    ensures Offset(bs, i) == Extent(bs[0]) + Offset(bs[1..], i - 1)
  {
    assert bs[..i][1..] == bs[1..][..i - 1];
  }

  lemma {:induction false} IndexOfOffset(bs: seq<Block>, i: nat)
    requires i < |bs|
    ensures IndexOf(bs, Offset(bs, i)) == i
  {
    if i > 0 {
      OffsetTail(bs, i);
      IndexOfOffset(bs[1..], i - 1);
    }
  }

  lemma {:induction false} IndexOfSound(bs: seq<Block>, o: int)
    requires IndexOf(bs, o) < |bs|
    ensures Offset(bs, IndexOf(bs, o)) == o
  {
    if o != 0 {
      IndexOfSound(bs[1..], o - Extent(bs[0]));
      OffsetTail(bs, IndexOf(bs, o));
    }
  }

  lemma {:induction false} LiveIndexFrom(bs: seq<Block>, o: nat, x: Alloc)
    requires x in LiveFrom(bs, o)
    ensures var i := IndexOf(bs, x.offset - o); i < |bs| && bs[i] == Block(x.size, false)
  {
    LiveBounds(bs, o);
    if bs[0].free || x != Alloc(o, bs[0].size) {
      LiveBounds(bs[1..], o + Extent(bs[0]));
      LiveIndexFrom(bs[1..], o + Extent(bs[0]), x);
    }
  }

  /** The live allocations are exactly the blocks that are not free, at their own offsets. */
  lemma LiveIsBlocks(bs: seq<Block>, x: Alloc)
    ensures x in Live(bs) <==> exists i :: 0 <= i < |bs| && bs[i] == Block(x.size, false) && Offset(bs, i) == x.offset
  {
    if x in Live(bs) {
      LiveIndexFrom(bs, 0, x);
      IndexOfSound(bs, x.offset);
    }
    forall i | 0 <= i < |bs| && bs[i] == Block(x.size, false) && Offset(bs, i) == x.offset
      ensures x in Live(bs)
    {
      Here(bs, i);
    }
  }

  lemma FirstFitIs(bs: seq<Block>, need: nat, i: nat)
    requires i <= |bs| && (i < |bs| ==> Fits(bs[i], need))
    requires forall j :: 0 <= j < i ==> !Fits(bs[j], need)
    ensures FirstFit(bs, need) == i
  {
  }

  lemma LiveBytesBound(bs: seq<Block>)
    ensures LiveBytes(bs) <= Span(bs)
  {
    BytesAddUp(bs);
  }

  // ----- calls and runs

  datatype Call = Malloc(n: Word) | Free(offset: nat) | FreeNull

  /** The C code gives `free` a meaning only at block headers; freeing one that is already free is a panic. */
  predicate Legal(bs: seq<Block>, c: Call) {
    c.Free? ==> IndexOf(bs, c.offset) < |bs|
  }

  function Step(bs: seq<Block>, c: Call): Outcome<seq<Block>>
    requires Legal(bs, c)
  {
    match c
    case Malloc(n) =>
      if n == 0 then Done(bs) else
        var i := FirstFit(bs, RoundUp(n));
        if i == |bs| then Panicked else Done(Allot(bs, i, RoundUp(n)))
    case Free(o) =>
      var i := IndexOf(bs, o);
      if bs[i].free then Panicked else Done(Release(bs, i))
    case FreeNull => Done(bs)
  }

  predicate LegalRun(bs: seq<Block>, calls: seq<Call>)
    decreases calls
  {
    calls == [] ||
    (Legal(bs, calls[0]) && (Step(bs, calls[0]).Done? ==> LegalRun(Step(bs, calls[0]).value, calls[1..])))
  }

  function Run(bs: seq<Block>, calls: seq<Call>): Outcome<seq<Block>>
    requires LegalRun(bs, calls)
    decreases calls
  {
    if calls == [] then Done(bs) else
      match Step(bs, calls[0])
      case Panicked => Panicked
      case Done(cs) => Run(cs, calls[1..])
  }

  lemma InitialValid()
    ensures Valid(Initial()) && Live(Initial()) == {} && LiveBytes(Initial()) == 0
  {
    Singleton(Initial()[0], 0);
  }

  lemma StepValid(bs: seq<Block>, c: Call)
    requires Valid(bs) && Legal(bs, c) && Step(bs, c).Done?
    ensures Valid(Step(bs, c).value)
  {
    match c
    case Malloc(n) =>
      if n != 0 {
        AllotValid(bs, FirstFit(bs, RoundUp(n)), RoundUp(n));
      }
    case Free(o) => ReleaseValid(bs, IndexOf(bs, o));
    case FreeNull =>
  }

  lemma MallocKeepsLive(bs: seq<Block>, n: Word)
    requires Valid(bs) && Step(bs, Malloc(n)).Done?
    ensures Live(bs) <= Live(Step(bs, Malloc(n)).value)
  {
    if n != 0 {
      AllotLive(bs, FirstFit(bs, RoundUp(n)), RoundUp(n));
    }
  }

  /** A successful malloc adds one allocation, of at least the rounded size, to the live ones. */
  lemma MallocEffect(bs: seq<Block>, n: Word) returns (x: Alloc)
    requires Valid(bs) && n != 0 && Step(bs, Malloc(n)).Done?
    ensures x !in Live(bs) && Live(Step(bs, Malloc(n)).value) == Live(bs) + {x}
    ensures x.offset == Offset(bs, FirstFit(bs, RoundUp(n))) && x.size >= RoundUp(n)
  {
    var i := FirstFit(bs, RoundUp(n));
    AllotLive(bs, i, RoundUp(n));
    x := Alloc(Offset(bs, i), Allot(bs, i, RoundUp(n))[i].size);
    FreeNotLive(bs, i, x.size);
  }

  lemma FreeKeepsLive(bs: seq<Block>, o: nat)
    requires Valid(bs) && Legal(bs, Free(o))
    ensures Step(bs, Free(o)).Done? ==> forall x :: x in Live(bs) && x.offset != o ==> x in Live(Step(bs, Free(o)).value)
  {
    var i := IndexOf(bs, o);
    IndexOfSound(bs, o);
    if !bs[i].free {
      ReleaseLive(bs, i);
    }
  }

  /** Every run that does not panic keeps the heap tiled, aligned and coalesced. */
  lemma {:induction false} RunValid(bs: seq<Block>, calls: seq<Call>)
    requires Valid(bs) && LegalRun(bs, calls) && Run(bs, calls).Done?
    ensures Valid(Run(bs, calls).value)
    decreases calls
  {
    if calls != [] {
      StepValid(bs, calls[0]);
      RunValid(Step(bs, calls[0]).value, calls[1..]);
    }
  }

  /** The heap remembers nothing but its live allocations: two runs that end with the same ones end in the same heap. */
  lemma HistoryIndependent(calls: seq<Call>, others: seq<Call>)
    requires LegalRun(Initial(), calls) && Run(Initial(), calls).Done?
    requires LegalRun(Initial(), others) && Run(Initial(), others).Done?
    ensures Live(Run(Initial(), calls).value) == Live(Run(Initial(), others).value)
            ==> Run(Initial(), calls) == Run(Initial(), others)
  {
    InitialValid();
    RunValid(Initial(), calls);
    RunValid(Initial(), others);
    if Live(Run(Initial(), calls).value) == Live(Run(Initial(), others).value) {
      Canonical(Run(Initial(), calls).value, Run(Initial(), others).value);
    }
  }

  lemma FreeNotLive(bs: seq<Block>, i: nat, size: nat)
    requires i < |bs| && bs[i].free
    ensures Alloc(Offset(bs, i), size) !in Live(bs)
  {
    if Alloc(Offset(bs, i), size) in Live(bs) {
      LiveIndexFrom(bs, 0, Alloc(Offset(bs, i), size));
      IndexOfOffset(bs, i);
    }
  }

  lemma ReleaseUndoesAllot(bs: seq<Block>, i: nat, need: nat)
    requires Valid(bs) && i < |bs| && Fits(bs[i], need) && need % 4 == 0
    ensures Release(Allot(bs, i, need), i) == bs
  {
    var cs := Allot(bs, i, need);
    AllotValid(bs, i, need);
    AllotLive(bs, i, need);
    ReleaseValid(cs, i);
    ReleaseLive(cs, i);
    FreeNotLive(bs, i, cs[i].size);
    Canonical(Release(cs, i), bs);
  }

  /** Freeing what `malloc` just returned restores the heap. */
  lemma FreeUndoesMalloc(bs: seq<Block>, n: Word)
    requires Valid(bs) && n != 0 && Step(bs, Malloc(n)).Done?
    ensures var o := Offset(bs, FirstFit(bs, RoundUp(n)));
            && Legal(Step(bs, Malloc(n)).value, Free(o))
            && Step(Step(bs, Malloc(n)).value, Free(o)) == Done(bs)
  {
    var i := FirstFit(bs, RoundUp(n));
    AllotLive(bs, i, RoundUp(n));
    IndexOfOffset(Allot(bs, i, RoundUp(n)), i);
    ReleaseUndoesAllot(bs, i, RoundUp(n));
  }

  /** The sizes that no wrapped request has touched are positive. */
  ghost predicate Positive(bs: seq<Block>) {
    forall i :: 0 <= i < |bs| ==> bs[i].size > 0
  }

  lemma StepPositive(bs: seq<Block>, c: Call)
    requires Positive(bs) && Legal(bs, c) && (c.Malloc? ==> c.n <= 0xFFFF_FFFC) && Step(bs, c).Done?
    ensures Positive(Step(bs, c).value)
  {
    match c
    case Malloc(n) =>
      if n != 0 {
        AllotPositive(bs, FirstFit(bs, RoundUp(n)), RoundUp(n));
      }
    case Free(o) => ReleasePositive(bs, IndexOf(bs, o));
    case FreeNull =>
  }

  lemma AllotPositive(bs: seq<Block>, i: nat, need: nat)
    requires Positive(bs) && i < |bs| && need > 0
    ensures Positive(Allot(bs, i, need))
  {
    var mid := Carve(bs[i], need);
    assert forall k :: 0 <= k < |mid| ==> mid[k].size > 0;
  }

  lemma MergePositive(bs: seq<Block>, i: nat)
    requires Positive(bs) && i + 1 < |bs|
    ensures Positive(Merge(bs, i))
  {
  }

  lemma ReleasePositive(bs: seq<Block>, i: nat)
    requires Positive(bs) && i < |bs|
    ensures Positive(Release(bs, i))
  {
    var freed := bs[i := Block(bs[i].size, true)];
    if i + 1 < |freed| && freed[i + 1].free {
      MergePositive(freed, i);
    }
    var next := MergeNext(freed, i);
    if i > 0 && next[i - 1].free {
      MergePositive(next, i - 1);
    }
  }

  /** Over runs whose requests do not wrap, every block's size is positive, and by `RunValid` a multiple of four. */
  lemma {:induction false} RunPositive(bs: seq<Block>, calls: seq<Call>)
    requires Positive(bs) && LegalRun(bs, calls) && Run(bs, calls).Done?
    requires forall c :: c in calls && c.Malloc? ==> c.n <= 0xFFFF_FFFC
    ensures Positive(Run(bs, calls).value)
    decreases calls
  {
    if calls != [] {
      assert calls[0] in calls;
      StepPositive(bs, calls[0]);
      RunPositive(Step(bs, calls[0]).value, calls[1..]);
    }
  }

  // ----- freeing a set of allocations in any order

  function Frees(os: seq<nat>): seq<Call> {
    if os == [] then [] else [Free(os[0])] + Frees(os[1..])
  }

  ghost predicate Distinct(os: seq<nat>) {
    forall i, j :: 0 <= i < j < |os| ==> os[i] != os[j]
  }

  ghost predicate AllLive(bs: seq<Block>, os: seq<nat>) {
    forall o :: o in os ==> exists x :: x in Live(bs) && x.offset == o
  }

  ghost function Without(live: set<Alloc>, os: seq<nat>): set<Alloc> {
    set x | x in live && x.offset !in os
  }

  /** Live allocations are told apart by their offsets. */
  lemma OffsetsDiffer(bs: seq<Block>, x: Alloc, y: Alloc)
    requires x in Live(bs) && y in Live(bs) && x.offset == y.offset
    ensures x == y
  {
    LiveIndexFrom(bs, 0, x);
    LiveIndexFrom(bs, 0, y);
  }

  lemma FreeOne(bs: seq<Block>, o: nat)
    requires Valid(bs) && (exists x :: x in Live(bs) && x.offset == o)
    ensures Legal(bs, Free(o)) && Step(bs, Free(o)).Done?
    ensures Valid(Step(bs, Free(o)).value)
    ensures Live(Step(bs, Free(o)).value) == Without(Live(bs), [o])
  {
    var x :| x in Live(bs) && x.offset == o;
    LiveIndexFrom(bs, 0, x);
    var i := IndexOf(bs, o);
    IndexOfSound(bs, o);
    ReleaseValid(bs, i);
    ReleaseLive(bs, i);
    forall y | y in Live(bs) && y.offset == o ensures y == x {
      OffsetsDiffer(bs, x, y);
    }
  }

  lemma {:induction false} FreesLive(bs: seq<Block>, os: seq<nat>)
    requires Valid(bs) && Distinct(os) && AllLive(bs, os)
    ensures LegalRun(bs, Frees(os)) && Run(bs, Frees(os)).Done?
    ensures Valid(Run(bs, Frees(os)).value)
    ensures Live(Run(bs, Frees(os)).value) == Without(Live(bs), os)
    decreases os
  {
    if os != [] {
      assert os[0] in os;
      FreeOne(bs, os[0]);
      var cs := Step(bs, Free(os[0])).value;
      assert os == [os[0]] + os[1..];
      forall o | o in os[1..] ensures exists x :: x in Live(cs) && x.offset == o {
        assert o in os;
        var x :| x in Live(bs) && x.offset == o;
        assert x in Live(cs);
      }
      FreesLive(cs, os[1..]);
    }
  }

  /** Freeing the same live allocations in two different orders gives the same heap. */
  lemma FreesCommute(bs: seq<Block>, os: seq<nat>, ps: seq<nat>)
    requires Valid(bs) && Distinct(os) && AllLive(bs, os) && Distinct(ps)
    requires forall o :: o in os <==> o in ps
    ensures LegalRun(bs, Frees(os)) && LegalRun(bs, Frees(ps))
    ensures Run(bs, Frees(os)).Done? && Run(bs, Frees(os)) == Run(bs, Frees(ps))
  {
    FreesLive(bs, os);
    FreesLive(bs, ps);
    assert Without(Live(bs), os) == Without(Live(bs), ps);
    Canonical(Run(bs, Frees(os)).value, Run(bs, Frees(ps)).value);
  }

  /** Freeing everything, in any order, gives back the single initial block and no bytes in use. */
  lemma FreeEverything(bs: seq<Block>, os: seq<nat>)
    requires Valid(bs) && Distinct(os) && AllLive(bs, os)
    requires forall x :: x in Live(bs) ==> x.offset in os
    ensures LegalRun(bs, Frees(os)) && Run(bs, Frees(os)) == Done(Initial())
    ensures LiveBytes(Initial()) == 0
  {
    FreesLive(bs, os);
    InitialValid();
    assert Without(Live(bs), os) == {};
    Canonical(Run(bs, Frees(os)).value, Initial());
  }

  // ----- where malloc places a block, and when it cannot

  /** A header and `need` payload bytes placed at offset `o` would meet no live allocation, header or payload. */
  ghost predicate Room(bs: seq<Block>, o: nat, need: nat) {
    RoomBeside(Live(bs), Span(bs), o, need)
  }

  ghost predicate RoomBeside(live: set<Alloc>, end: nat, o: nat, need: nat) {
    && o + HEADER_SIZE + need <= end
    && forall x :: x in live ==> x.offset + HEADER_SIZE + x.size <= o || o + HEADER_SIZE + need <= x.offset
  }

  /** Room lies within one free block, because neighbouring free blocks have been merged. */
  lemma {:induction false} RoomInOneBlock(bs: seq<Block>, base: nat, o: nat, need: nat) returns (i: nat)
    requires Coalesced(bs) && base <= o
    requires RoomBeside(LiveFrom(bs, base), base + Span(bs), o, need)
    ensures i < |bs| && bs[i].free
    ensures base + Offset(bs, i) <= o && o + HEADER_SIZE + need <= base + Offset(bs, i) + Extent(bs[i])
  {
    var end := base + Extent(bs[0]);
    if o < end {
      i := 0;
      HeadLive(bs, base);
      if bs[0].free {
        FreeHeadEnds(bs, base);
      }
    } else {
      i := RoomInOneBlock(bs[1..], end, o, need);
      i := i + 1;
      OffsetTail(bs, i);
    }
  }

  lemma FreeBlockHasRoom(bs: seq<Block>, i: nat)
    requires i < |bs| && bs[i].free
    ensures Room(bs, Offset(bs, i), bs[i].size)
  {
    Here(bs, i);
    NextOffset(bs, i);
    LiveBounds(bs[..i], 0);
    LiveBounds(bs[i + 1..], Offset(bs, i + 1));
  }

  /**
   malloc is complete and places a block as low as possible: with `need` the rounded request, it panics exactly when
   there is no room for it anywhere between the live allocations, and otherwise its header goes to the lowest offset
   with room.
   */
  lemma LowestPlacement(bs: seq<Block>, need: nat)
    requires Valid(bs)
    ensures FirstFit(bs, need) == |bs| <==> !exists o: nat :: Room(bs, o, need)
    ensures var i := FirstFit(bs, need);
            i < |bs| ==> Room(bs, Offset(bs, i), need) && forall o: nat :: Room(bs, o, need) ==> Offset(bs, i) <= o
  {
    var i := FirstFit(bs, need);
    if i < |bs| {
      FreeBlockHasRoom(bs, i);
      assert Room(bs, Offset(bs, i), need);
    }
    forall o: nat | Room(bs, o, need)
      ensures i < |bs| && Offset(bs, i) <= o
    {
      var j := RoomInOneBlock(bs, 0, o, need);
      assert Fits(bs[j], need);
      if i < j {
        OffsetIncreasing(bs, i, j);
      }
    }
  }

  /** The room at a free block is exactly its size: a live block, or the end of the heap, follows. */
  lemma RoomAtBlock(bs: seq<Block>, i: nat, k: nat)
    requires Coalesced(bs) && i < |bs| && bs[i].free
    ensures Room(bs, Offset(bs, i), k) <==> k <= bs[i].size
  {
    FreeBlockHasRoom(bs, i);
    if Room(bs, Offset(bs, i), k) {
      var j := RoomInOneBlock(bs, 0, Offset(bs, i), k);
      if j < i {
        OffsetIncreasing(bs, j, i);
      } else if i < j {
        OffsetIncreasing(bs, i, j);
      }
    }
  }

  /**
   What a request is charged, told from the live allocations alone: its rounded size if 28 bytes more would fit at that
   place, and otherwise everything up to the next live allocation or the end of the heap.
   */
  lemma ExactCharge(bs: seq<Block>, n: Word) returns (o: nat, size: nat)
    requires Valid(bs) && n != 0 && Step(bs, Malloc(n)).Done?
    ensures var cs, need := Step(bs, Malloc(n)).value, RoundUp(n) as int;
            && o == Offset(bs, FirstFit(bs, need))
            && Live(cs) == Live(bs) + {Alloc(o, size)} && Alloc(o, size) !in Live(bs)
            && LiveBytes(cs) == LiveBytes(bs) + 12 + size
            && (if Room(bs, o, need + 28) then size == need else Room(bs, o, size) && !Room(bs, o, size + 4))
  {
    var need: nat := RoundUp(n);
    var i := FirstFit(bs, need);
    o := Offset(bs, i);
    AllotLive(bs, i, need);
    size := Allot(bs, i, need)[i].size;
    FreeNotLive(bs, i, size);
    RoomAtBlock(bs, i, need + 28);
    RoomAtBlock(bs, i, size);
    RoomAtBlock(bs, i, size + 4);
  }

  // ----- accounting

  lemma {:induction false} BytesAddUp(bs: seq<Block>)
    ensures LiveBytes(bs) + FreeBytes(bs) == Span(bs)
  {
    if bs != [] {
      BytesAddUp(bs[1..]);
    }
  }

  ghost function LiveCount(bs: seq<Block>): nat {
    if bs == [] then 0 else (if bs[0].free then 0 else 1) + LiveCount(bs[1..])
  }

  lemma {:induction false} LiveCountIsCardinality(bs: seq<Block>, o: nat)
    ensures |LiveFrom(bs, o)| == LiveCount(bs)
  {
    if bs != [] {
      LiveCountIsCardinality(bs[1..], o + Extent(bs[0]));
      LiveBounds(bs[1..], o + Extent(bs[0]));
      var rest := LiveFrom(bs[1..], o + Extent(bs[0]));
      if !bs[0].free {
        AddedOne(rest, Alloc(o, bs[0].size));
        assert LiveFrom(bs, o) == {Alloc(o, bs[0].size)} + rest;
      } else {
        assert LiveFrom(bs, o) == rest;
      }
    }
  }

  lemma AddedOne(rest: set<Alloc>, x: Alloc)
    requires x !in rest
    ensures |{x} + rest| == |rest| + 1
  {
  }

  /** With every free block below `m` bytes, `L` live blocks leave fewer than `(L + 1) * m` bytes free. */
  lemma {:induction false} Fragmentation(bs: seq<Block>, m: nat)
    requires Coalesced(bs) && m > 0
    requires forall i :: 0 <= i < |bs| && bs[i].free ==> Extent(bs[i]) < m
    ensures FreeBytes(bs) < (LiveCount(bs) + 1) * m
    ensures bs != [] && !bs[0].free ==> FreeBytes(bs) < LiveCount(bs) * m
  {
    if bs != [] {
      Fragmentation(bs[1..], m);
      if bs[0].free && |bs| > 1 {
        assert !bs[1].free;
      }
      assert (LiveCount(bs[1..]) + 1) * m == LiveCount(bs[1..]) * m + m;
    }
  }

  /** With L live allocations, malloc succeeds whenever (L + 1) * (rounded size + header) bytes are free. */
  lemma GuaranteedSuccess(bs: seq<Block>, n: Word)
    requires Valid(bs)
    requires HEAP_MAX_SIZE - LiveBytes(bs) >= (|Live(bs)| + 1) * (RoundUp(n) + HEADER_SIZE)
    ensures Step(bs, Malloc(n)).Done?
  {
    var need := RoundUp(n);
    BytesAddUp(bs);
    LiveCountIsCardinality(bs, 0);
    if FirstFit(bs, need) == |bs| {
      assert forall i :: 0 <= i < |bs| && bs[i].free ==> !Fits(bs[i], need);
      Fragmentation(bs, need + HEADER_SIZE);
    }
  }

  /** A successful request for `n` bytes costs at most `n + 39` bytes of heap. */
  lemma MallocCost(bs: seq<Block>, n: Word)
    requires Valid(bs) && 0 < n <= 0xFFFF_FFFC && Step(bs, Malloc(n)).Done?
    ensures LiveBytes(bs) + n + HEADER_SIZE <= LiveBytes(Step(bs, Malloc(n)).value) <= LiveBytes(bs) + n + 39
  {
    AllotLive(bs, FirstFit(bs, RoundUp(n)), RoundUp(n));
  }

  /**
   The block malloc hands out holds the bytes asked for exactly when the rounding does not wrap: for the last three
   32-bit sizes the rounded request is zero and the block is far too small.
   */
  lemma BigEnoughIff(bs: seq<Block>, n: Word)
    requires Valid(bs) && n != 0 && Step(bs, Malloc(n)).Done?
    ensures var i := FirstFit(bs, RoundUp(n));
            Step(bs, Malloc(n)).value[i].size >= n <==> n <= 0xFFFF_FFFC
  {
    AllotLive(bs, FirstFit(bs, RoundUp(n)), RoundUp(n));
  }

  lemma WrappedRequest()
    ensures Step(Initial(), Malloc(0xFFFF_FFFD)) == Done([Block(0, false), Block(HEAP_MAX_SIZE - 2 * HEADER_SIZE, true)])
  {
    var bs := Initial();
    assert bs[..0] == [] && bs[1..] == [];
    assert FirstFit(bs, RoundUp(0xFFFF_FFFD)) == 0;
    assert Allot(bs, 0, 0) == Carve(bs[0], 0);
  }

  // ----- separation

  /** The payloads of two live allocations do not overlap, nor does either reach into the other's header. */
  lemma LiveDisjoint(bs: seq<Block>, x: Alloc, y: Alloc)
    requires x in Live(bs) && y in Live(bs) && x != y
    ensures x.offset + HEADER_SIZE + x.size <= y.offset || y.offset + HEADER_SIZE + y.size <= x.offset
  {
    LiveIsBlocks(bs, x);
    LiveIsBlocks(bs, y);
    var i :| 0 <= i < |bs| && bs[i] == Block(x.size, false) && Offset(bs, i) == x.offset;
    var j :| 0 <= j < |bs| && bs[j] == Block(y.size, false) && Offset(bs, j) == y.offset;
    if i < j {
      OffsetIncreasing(bs, i, j);
    } else {
      OffsetIncreasing(bs, j, i);
    }
  }

  /** No header, of a live or a free block, lies inside a live payload. */
  lemma HeadersOutsidePayloads(bs: seq<Block>, x: Alloc, i: nat)
    requires x in Live(bs) && i < |bs|
    ensures Offset(bs, i) + HEADER_SIZE <= x.offset + HEADER_SIZE || x.offset + HEADER_SIZE + x.size <= Offset(bs, i)
  {
    LiveIsBlocks(bs, x);
    var j :| 0 <= j < |bs| && bs[j] == Block(x.size, false) && Offset(bs, j) == x.offset;
    if i < j {
      OffsetIncreasing(bs, i, j);
    } else if j < i {
      OffsetIncreasing(bs, j, i);
    }
  }
}
