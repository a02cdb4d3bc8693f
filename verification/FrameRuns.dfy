/**
 What `pmm_init` leaves free, and what holds over any run of frame allocations and releases after it.
 */
module FrameRuns {
  import opened Words
  import opened Bitmap
  import opened Frames
  import opened HeapModel

  const TOTAL_FRAMES := TOTAL_MEMORY / FRAME_SIZE
  const BITMAP_SIZE := TOTAL_FRAMES / 8

  /** Some usable entry of the memory map covers frame `f`, after its base and length are cut to 32 bits. */
  ghost predicate Reported(regions: seq<Region>, f: nat) {
    exists r :: r in regions && r.kind == MEMORY_USABLE && Covers(Wrap(r.base), Wrap(r.length), f)
  }

  /** Frame `f` is in low memory, in the kernel image or in the bitmap: one of the three ranges marked used last. */
  predicate Reserved(kernelEnd: Word, bitmapAddress: Word, f: nat) {
    || Covers(0, LOW_MEMORY, f)
    || Covers(LOW_MEMORY, Wrap(kernelEnd - LOW_MEMORY), f)
    || Covers(bitmapAddress, BITMAP_SIZE, f)
  }

  ghost function InitialFree(regions: seq<Region>, kernelEnd: Word, bitmapAddress: Word): set<nat> {
    set f: nat | f < TOTAL_FRAMES && Reported(regions, f) && !Reserved(kernelEnd, bitmapAddress, f)
  }

  /** The loop of pmm_init over the memory map. */
  method FreeReported(pmm: FrameAllocator, regions: seq<Region>)
    requires pmm.Valid() && pmm.free == {}
    modifies pmm, pmm.bitmap
    ensures pmm.Valid()
    ensures forall f: nat :: f in pmm.free <==> f < pmm.totalFrames && Reported(regions, f)
  {
    for i := 0 to |regions|
      invariant pmm.Valid()
      invariant forall f: nat :: f in pmm.free <==> f < pmm.totalFrames && Reported(regions[..i], f)
    {
      var entry := regions[i];
      ReportedNext(regions, i);
      if entry.kind == MEMORY_USABLE {
        pmm.MarkRangeFree(Wrap(entry.base), Wrap(entry.length));
      }
    }
    assert regions[..|regions|] == regions;
  }

  /** pmm_init, for any memory map; `bitmapAddress` is what bump_alloc returned. */
  method PmmInit(regions: seq<Region>, kernelEnd: Word, bitmapAddress: Word) returns (r: Outcome<FrameAllocator>)
    ensures r == Panicked <==> bitmapAddress == 0
    ensures r.Done? ==> fresh(r.value) && fresh(r.value.bitmap) && r.value.Valid()
    ensures r.Done? ==> r.value.totalFrames == TOTAL_FRAMES == 32768
    ensures r.Done? ==> r.value.free == InitialFree(regions, kernelEnd, bitmapAddress)
  {
    if bitmapAddress == 0 {
      return Panicked;
    }
    var pmm := new FrameAllocator(TOTAL_FRAMES);
    FreeReported(pmm, regions);
    pmm.MarkRangeUsed(0, LOW_MEMORY);
    pmm.MarkRangeUsed(LOW_MEMORY, Wrap(kernelEnd - LOW_MEMORY));
    pmm.MarkRangeUsed(bitmapAddress, BITMAP_SIZE);
    assert forall f: nat :: f in pmm.free <==> f in InitialFree(regions, kernelEnd, bitmapAddress);
    return Done(pmm);
  }

  lemma ReportedNext(regions: seq<Region>, i: nat)
    requires i < |regions|
    ensures forall f :: Reported(regions[..i + 1], f) <==>
              Reported(regions[..i], f)
              || (regions[i].kind == MEMORY_USABLE && Covers(Wrap(regions[i].base), Wrap(regions[i].length), f))
  {
    assert regions[..i + 1] == regions[..i] + [regions[i]];
  }

  /** Entries of any type but 1, the usable one, make no frame free. */
  lemma OnlyTypeOne(regions: seq<Region>, kernelEnd: Word, bitmapAddress: Word)
    requires forall r :: r in regions ==> r.kind != 1
    ensures InitialFree(regions, kernelEnd, bitmapAddress) == {}
  {
  }

  /** Neither the order of the memory map nor entries that repeat or overlap others make a difference. */
  lemma OrderIrrelevant(regions: seq<Region>, others: seq<Region>, kernelEnd: Word, bitmapAddress: Word)
    requires forall r :: r in regions <==> r in others
    ensures InitialFree(regions, kernelEnd, bitmapAddress) == InitialFree(others, kernelEnd, bitmapAddress)
  {
    forall f: nat ensures Reported(regions, f) <==> Reported(others, f) {
      if Reported(regions, f) {
        var r :| r in regions && r.kind == MEMORY_USABLE && Covers(Wrap(r.base), Wrap(r.length), f);
      }
    }
  }

  /** The low megabyte, and so the null address, is never free; nor is any frame of the kernel image. */
  lemma ReservedFrames(regions: seq<Region>, kernelEnd: Word, bitmapAddress: Word, address: Word)
    requires LOW_MEMORY <= kernelEnd <= 0xFFFF_F000
    requires address < kernelEnd
    ensures address / FRAME_SIZE !in InitialFree(regions, kernelEnd, bitmapAddress)
  {
  }

  /**
   The count is rounded up from the length alone, so an unaligned range can miss its last frame: every byte of a
   range lies in a visited frame exactly when the rounding leaves room for the offset of the start within its frame.
   */
  lemma RangeCompleteIff(start: Word, length: Word)
    requires 0 < length
    ensures (forall a: nat :: start <= a < start + length ==> Covers(start, length, a / FRAME_SIZE))
            <==> start % FRAME_SIZE + length <= FRAME_SIZE * FrameCount(length)
  {
    var last := start + length - 1;
    if start % FRAME_SIZE + length <= FRAME_SIZE * FrameCount(length) {
      forall a: nat | start <= a < start + length ensures Covers(start, length, a / FRAME_SIZE) {
        assert a / FRAME_SIZE <= last / FRAME_SIZE;
      }
    } else {
      assert !Covers(start, length, last / FRAME_SIZE);
    }
  }

  lemma MissedFrame()
    ensures !Covers(0x10_0800, 4096, (0x10_0800 + 4095) / FRAME_SIZE)
  {
  }

  /** The frame holds some byte of the 4 MB from `start` on. */
  predicate Meets(f: nat, start: nat, length: nat) {
    f * FRAME_SIZE < start + length && start < (f + 1) * FRAME_SIZE
  }

  /** Where a reserved frame can lie: below the kernel's end, or at the bitmap's first byte. */
  lemma ReservedBelow(kernelEnd: Word, bitmapAddress: Word, f: nat)
    requires LOW_MEMORY <= kernelEnd <= 0xFFFF_FFFC && kernelEnd <= bitmapAddress
    ensures Reserved(kernelEnd, bitmapAddress, f) ==> f <= bitmapAddress / FRAME_SIZE
    ensures f == bitmapAddress / FRAME_SIZE ==> Reserved(kernelEnd, bitmapAddress, f)
  {
    assert FrameCount(LOW_MEMORY) == 0x100 && FrameCount(BITMAP_SIZE) == 1;
    KernelFrames(kernelEnd, f);
    assert kernelEnd / FRAME_SIZE <= bitmapAddress / FRAME_SIZE;
  }

  lemma KernelFrames(kernelEnd: Word, f: nat)
    requires LOW_MEMORY <= kernelEnd <= 0xFFFF_FFFC
    ensures Covers(LOW_MEMORY, Wrap(kernelEnd - LOW_MEMORY), f) ==> f * FRAME_SIZE < kernelEnd
  {
  }

  /**
   pmm_init reserves no frame of the heap, wherever the kernel ends; so a frame that the heap meets is free exactly when
   a usable entry of the memory map covers it.
   */
  lemma HeapFramesFreeIff(regions: seq<Region>, kernelEnd: Word, f: nat)
    requires LOW_MEMORY <= kernelEnd <= 0xFFFF_FFFC
    requires var start := RoundUp(kernelEnd) + BITMAP_SIZE;
             start + HEAP_MAX_SIZE <= TOTAL_MEMORY && Meets(f, start, HEAP_MAX_SIZE)
    ensures !Reserved(kernelEnd, RoundUp(kernelEnd), f)
    ensures f in InitialFree(regions, kernelEnd, RoundUp(kernelEnd)) <==> Reported(regions, f)
  {
    ReservedBelow(kernelEnd, RoundUp(kernelEnd), f);
  }

  /** The heap is kept out of the frame allocator if and only if no usable entry covers any of its frames. */
  lemma HeapKeptOutIff(regions: seq<Region>, kernelEnd: Word)
    requires LOW_MEMORY <= kernelEnd <= 0xFFFF_FFFC
    requires RoundUp(kernelEnd) + BITMAP_SIZE + HEAP_MAX_SIZE <= TOTAL_MEMORY
    ensures var start := RoundUp(kernelEnd) + BITMAP_SIZE;
            (forall f: nat :: Meets(f, start, HEAP_MAX_SIZE) ==> f !in InitialFree(regions, kernelEnd, RoundUp(kernelEnd)))
            <==> (forall f: nat :: Meets(f, start, HEAP_MAX_SIZE) ==> !Reported(regions, f))
  {
    var start := RoundUp(kernelEnd) + BITMAP_SIZE;
    forall f: nat | Meets(f, start, HEAP_MAX_SIZE)
      ensures f in InitialFree(regions, kernelEnd, RoundUp(kernelEnd)) <==> Reported(regions, f)
    {
      HeapFramesFreeIff(regions, kernelEnd, f);
    }
  }

  /** Every byte of the bitmap lies in a reserved frame if and only if the bitmap starts on a frame boundary. */
  lemma BitmapReservedIff(kernelEnd: Word)
    requires LOW_MEMORY <= kernelEnd && kernelEnd + 3 + BITMAP_SIZE <= TOTAL_MEMORY
    ensures var bitmap := RoundUp(kernelEnd);
            (forall a: nat :: bitmap <= a < bitmap + BITMAP_SIZE ==> Reserved(kernelEnd, bitmap, a / FRAME_SIZE))
            <==> bitmap % FRAME_SIZE == 0
  {
    var bitmap := RoundUp(kernelEnd);
    var last := bitmap + BITMAP_SIZE - 1;
    if bitmap % FRAME_SIZE == 0 {
      forall a: nat | bitmap <= a < bitmap + BITMAP_SIZE ensures Reserved(kernelEnd, bitmap, a / FRAME_SIZE) {
        ReservedBelow(kernelEnd, bitmap, a / FRAME_SIZE);
      }
    } else {
      ReservedBelow(kernelEnd, bitmap, last / FRAME_SIZE);
      assert !Reserved(kernelEnd, bitmap, last / FRAME_SIZE);
    }
  }

  /**
   An input where it is not: with an ordinary memory map and a kernel that ends at 0x120000, the heap begins at
   0x121000 and the frame there is free.
   */
  lemma HeapNotReserved()
    ensures 0x121 in InitialFree([Region(0x10_0000, 0x7F0_0000, 1)], 0x12_0000, 0x12_0000)
  {
    var r := Region(0x10_0000, 0x7F0_0000, 1);
    assert r in [r] && Covers(Wrap(r.base), Wrap(r.length), 0x121);
  }

  // ----- runs

  /** The free frames, and the frames that clients hold. */
  datatype Pool = Pool(free: set<nat>, held: set<nat>)

  /** `Take(f)` is an allocation that returned frame `f`; `Give(f)` releases a frame its client holds. */
  datatype Event = Take(f: nat) | Give(f: nat)

  ghost predicate Possible(p: Pool, e: Event) {
    match e
    case Take(f) => f in p.free && forall g :: g in p.free ==> f <= g
    case Give(f) => f in p.held
  }

  ghost function After(p: Pool, e: Event): Pool {
    match e
    case Take(f) => Pool(p.free - {f}, p.held + {f})
    case Give(f) => Pool(p.free + {f}, p.held - {f})
  }

  ghost predicate PossibleRun(p: Pool, es: seq<Event>)
    decreases es
  {
    es == [] || (Possible(p, es[0]) && PossibleRun(After(p, es[0]), es[1..]))
  }

  ghost function Final(p: Pool, es: seq<Event>): Pool
    decreases es
  {
    if es == [] then p else Final(After(p, es[0]), es[1..])
  }

  /** Frames are neither lost nor made: what is free or held at the end was free or held at the start, each once. */
  lemma {:induction false} Conservation(p: Pool, es: seq<Event>)
    requires p.free !! p.held && PossibleRun(p, es)
    ensures var q := Final(p, es);
            q.free !! q.held && q.free + q.held == p.free + p.held && |q.free| + |q.held| == |p.free| + |p.held|
    decreases es
  {
    if es != [] {
      var q := After(p, es[0]);
      match es[0] {
        case Take(f) =>
          assert |p.free - {f}| == |p.free| - 1 && |p.held + {f}| == |p.held| + 1;
        case Give(f) =>
          assert |p.free + {f}| == |p.free| + 1 && |p.held - {f}| == |p.held| - 1;
      }
      assert q.free !! q.held && q.free + q.held == p.free + p.held;
      Conservation(q, es[1..]);
    }
  }

  /** No run hands out a frame that is still held, or one that was neither free nor held when the run began. */
  lemma {:induction false} NoDoubleHandout(p: Pool, es: seq<Event>, i: nat)
    requires p.free !! p.held && PossibleRun(p, es) && i < |es| && es[i].Take?
    ensures es[i].f !in Final(p, es[..i]).held && es[i].f in p.free + p.held
    decreases es
  {
    if i > 0 {
      var q := After(p, es[0]);
      assert q.free !! q.held;
      assert q.free + q.held == p.free + p.held;
      NoDoubleHandout(q, es[1..], i - 1);
      assert es[..i][1..] == es[1..][..i - 1];
    }
  }

  /** From boot on, no run ever hands out a frame that pmm_init marked used. */
  lemma NeverReserved(regions: seq<Region>, kernelEnd: Word, bitmapAddress: Word, es: seq<Event>, i: nat)
    requires PossibleRun(Pool(InitialFree(regions, kernelEnd, bitmapAddress), {}), es) && i < |es| && es[i].Take?
    ensures es[i].f < TOTAL_FRAMES && Reported(regions, es[i].f) && !Reserved(kernelEnd, bitmapAddress, es[i].f)
    ensures 0x100 <= es[i].f < 32768
  {
    NoDoubleHandout(Pool(InitialFree(regions, kernelEnd, bitmapAddress), {}), es, i);
    assert Covers(0, LOW_MEMORY, es[i].f) <==> es[i].f < 0x100;
  }

  /** Releasing the frame just allocated restores the bitmap bit for bit. */
  lemma ReleaseUndoesAlloc(bits: seq<Word>, f: nat)
    requires f < WORD_BITS * |bits| && f in FreeFrames(bits)
    ensures WithFree(WithUsed(bits, f), f) == bits
  {
    MarkUsed(bits, f);
    MarkFree(WithUsed(bits, f), f);
    assert FreeFrames(bits) - {f} + {f} == FreeFrames(bits);
    FreeFramesDetermine(WithFree(WithUsed(bits, f), f), bits);
  }

  // ----- runs of the allocator itself

  /** What a client asks for: a frame, or the release of the frame it has at place `k` of its list. */
  datatype Request = Alloc | Release(k: nat)

  ghost function FramesOf(held: seq<Word>): set<nat> {
    set a | a in held :: a / FRAME_SIZE
  }

  /** The addresses of a client's list: frames of the allocator that are not free, each once. */
  ghost predicate Holdings(pmm: FrameAllocator, held: seq<Word>)
    reads pmm
  {
    && (forall a :: a in held ==> a % FRAME_SIZE == 0 && a / FRAME_SIZE < pmm.totalFrames && a / FRAME_SIZE !in pmm.free)
    && forall i, j :: 0 <= i < j < |held| ==> held[i] != held[j]
  }

  lemma RunOfOne(p: Pool, e: Event)
    requires Possible(p, e)
    ensures PossibleRun(p, [e]) && Final(p, [e]) == After(p, e)
  {
    assert [e][1..] == [];
  }

  lemma FramesAdd(held: seq<Word>, a: Word)
    ensures FramesOf(held + [a]) == FramesOf(held) + {a / FRAME_SIZE}
  {
    assert forall x :: x in held + [a] <==> x in held || x == a;
    assert a in held + [a];
  }

  lemma FramesRemove(pmm: FrameAllocator, held: seq<Word>, k: nat)
    requires Holdings(pmm, held) && k < |held|
    ensures FramesOf(held[..k] + held[k + 1..]) == FramesOf(held) - {held[k] / FRAME_SIZE}
    ensures held[k] / FRAME_SIZE in FramesOf(held)
    ensures forall a :: a in held[..k] + held[k + 1..] ==> a in held && a / FRAME_SIZE != held[k] / FRAME_SIZE
  {
    var rest := held[..k] + held[k + 1..];
    forall a ensures a in rest <==> a in held && a != held[k] {
      if a in held && a != held[k] {
        var i :| 0 <= i < |held| && held[i] == a;
        assert a == rest[if i < k then i else i - 1];
      }
    }
    assert held[k] in held;
  }

  /** What one request does: `es` is the event it is, if any, and `mine` the client's list after it. */
  twostate predicate Served(pmm: FrameAllocator, held: seq<Word>, mine: seq<Word>, es: seq<Event>)
    reads pmm
  {
    var p := Pool(old(pmm.free), FramesOf(held));
    Holdings(pmm, mine) && |es| <= 1 && PossibleRun(p, es) && Final(p, es) == Pool(pmm.free, FramesOf(mine))
  }

  method ServeAlloc(pmm: FrameAllocator, held: seq<Word>) returns (r: Outcome<seq<Word>>, ghost es: seq<Event>)
    requires pmm.Valid() && Holdings(pmm, held)
    modifies pmm`freeCount, pmm`free, pmm.bitmap
    ensures pmm.Valid() && (r == Panicked <==> old(pmm.free) == {}) && (r == Panicked ==> pmm.free == {})
    ensures r.Done? ==> Answers(held, Request.Alloc, es, r.value) && Served(pmm, held, r.value, es)
  {
    ghost var p := Pool(pmm.free, FramesOf(held));
    var a := pmm.AllocFrame();
    if a == Panicked {
      return Panicked, [];
    }
    r := Done(held + [a.value]);
    es := [Take(a.value / FRAME_SIZE)];
    WholeFrames(a.value);
    FramesAdd(held, a.value);
    RunOfOne(p, es[0]);
  }

  lemma WholeFrames(a: Word)
    requires a % FRAME_SIZE == 0
    ensures a / FRAME_SIZE < MAX_FRAMES && a / FRAME_SIZE * FRAME_SIZE == a
  {
  }

  method ServeRelease(pmm: FrameAllocator, k: nat, held: seq<Word>) returns (mine: seq<Word>, ghost es: seq<Event>)
    requires pmm.Valid() && Holdings(pmm, held) && k < |held|
    modifies pmm`freeCount, pmm`free, pmm.bitmap
    ensures pmm.Valid() && Answers(held, Release(k), es, mine) && Served(pmm, held, mine, es)
  {
    ghost var p := Pool(pmm.free, FramesOf(held));
    FramesRemove(pmm, held, k);
    var done := pmm.FreeFrame(held[k]);
    mine := held[..k] + held[k + 1..];
    es := [Give(held[k] / FRAME_SIZE)];
    RunOfOne(p, es[0]);
  }

  /** The same for one request. */
  ghost predicate Answers(held: seq<Word>, request: Request, es: seq<Event>, mine: seq<Word>) {
    match request
    case Alloc => |es| == 1 && es[0].Take? && es[0].f < MAX_FRAMES && mine == held + [es[0].f * FRAME_SIZE]
    case Release(k) =>
      if k < |held| then es == [Give(held[k] / FRAME_SIZE)] && mine == held[..k] + held[k + 1..] else es == [] && mine == held
  }

  /** One request; a client releases only what it holds, and asking to release anything else does nothing. */
  method Serve(pmm: FrameAllocator, request: Request, held: seq<Word>) returns (r: Outcome<seq<Word>>, ghost es: seq<Event>)
    requires pmm.Valid() && Holdings(pmm, held)
    modifies pmm`freeCount, pmm`free, pmm.bitmap
    ensures pmm.Valid() && (r == Panicked <==> request.Alloc? && old(pmm.free) == {}) && (r == Panicked ==> pmm.free == {})
    ensures r.Done? ==> Answers(held, request, es, r.value) && Served(pmm, held, r.value, es)
  {
    match request
    case Alloc => r, es := ServeAlloc(pmm, held);
    case Release(k) =>
      r, es := Done(held), [];
      if k < |held| {
        var mine;
        mine, es := ServeRelease(pmm, k, held);
        r := Done(mine);
      }
  }

  /**
   The requests were answered by the events `es`, one for one, and leave the client with `mine`: an allocation takes some
   frame and puts its address at the end of the list, a release gives the frame at its place of the list, and asking to
   release what is not there is no event.
   */
  ghost predicate Answered(held: seq<Word>, requests: seq<Request>, es: seq<Event>, mine: seq<Word>)
    decreases requests
  {
    if requests == [] then es == [] && mine == held else
      match requests[0]
      case Alloc =>
        && es != [] && es[0].Take? && es[0].f < MAX_FRAMES
        && Answered(held + [es[0].f * FRAME_SIZE], requests[1..], es[1..], mine)
      case Release(k) =>
        if k < |held| then
          && es != [] && es[0] == Give(held[k] / FRAME_SIZE)
          && Answered(held[..k] + held[k + 1..], requests[1..], es[1..], mine)
        else Answered(held, requests[1..], es, mine)
  }

  lemma Before(p: Pool, first: seq<Event>, rest: seq<Event>)
    requires |first| <= 1 && PossibleRun(p, first) && PossibleRun(Final(p, first), rest)
    ensures PossibleRun(p, first + rest) && Final(p, first + rest) == Final(Final(p, first), rest)
  {
    if first == [] {
      assert first + rest == rest;
    } else {
      assert (first + rest)[1..] == rest && first[1..] == [];
      assert Final(p, first) == Final(After(p, first[0]), first[1..]) == After(p, first[0]);
    }
  }

  /**
   Any run of requests is a possible run of the events that answer them, so the lemmas above hold of the allocator: it
   neither loses nor doubles a frame.  It panics only when an allocation finds every frame taken; `n` is the number of
   requests served by then, and `mine` what the client holds.
   */
  method ServeAll(pmm: FrameAllocator, requests: seq<Request>, held: seq<Word>)
    returns (n: nat, mine: seq<Word>, ghost es: seq<Event>)
    requires pmm.Valid() && Holdings(pmm, held)
    modifies pmm`freeCount, pmm`free, pmm.bitmap
    ensures pmm.Valid() && Holdings(pmm, mine)
    ensures n <= |requests| && (n < |requests| ==> requests[n].Alloc? && pmm.free == {})
    ensures Answered(held, requests[..n], es, mine)
    ensures var p := Pool(old(pmm.free), FramesOf(held));
            && p.free !! p.held && PossibleRun(p, es)
            && Final(p, es) == Pool(pmm.free, FramesOf(mine)) && pmm.free !! FramesOf(mine)
            && pmm.free + FramesOf(mine) == p.free + p.held
    decreases requests
  {
    n, mine, es := 0, held, [];
    if requests != [] {
      ghost var p := Pool(pmm.free, FramesOf(held));
      var served;
      ghost var first;
      served, first := Serve(pmm, requests[0], held);
      if served.Done? {
        var m;
        ghost var rest;
        m, mine, rest := ServeAll(pmm, requests[1..], served.value);
        n, es := m + 1, first + rest;
        Before(p, first, rest);
        Conservation(p, es);
        Prepend(held, requests, first, served.value, m, rest, mine);
      }
    }
  }

  /** The answer to one request in front of the answers to the rest. */
  lemma Prepend(held: seq<Word>, requests: seq<Request>, first: seq<Event>, next: seq<Word>, m: nat, rest: seq<Event>, mine: seq<Word>)
    requires requests != [] && m <= |requests| - 1 && Answers(held, requests[0], first, next)
    requires Answered(next, requests[1..][..m], rest, mine)
    ensures Answered(held, requests[..m + 1], first + rest, mine)
  {
    assert requests[..m + 1][1..] == requests[1..][..m];
    assert first == [] ==> first + rest == rest;
    assert first != [] ==> (first + rest)[1..] == rest;
  }
}
