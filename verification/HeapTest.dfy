/**
 The shell's `heaptest` command: allocate 100, 200 and 50 bytes, free the second block, allocate 150, free the rest.
 */
module HeapTest {
  import opened Words
  import opened HeapModel
  import opened HeapRuns

  /** malloc with the offset of the header it chose. */
  function MallocAt(bs: seq<Block>, n: Word): Outcome<(seq<Block>, nat)> {
    match Step(bs, Malloc(n))
    case Panicked => Panicked
    case Done(cs) => Done((cs, Offset(bs, FirstFit(bs, RoundUp(n)))))
  }

  /** free at an offset; the command only frees what it has allocated. */
  function FreeAt(bs: seq<Block>, o: nat): Outcome<seq<Block>> {
    if Legal(bs, Free(o)) then Step(bs, Free(o)) else Panicked
  }

  /** The command up to the free of its second block: the heap before and after that, and the three offsets. */
  datatype Half = Half(s3: seq<Block>, s4: seq<Block>, a: nat, b: nat, c: nat)

  function FirstHalf(bs: seq<Block>): Outcome<Half> {
    match MallocAt(bs, 100) case Panicked => Panicked case Done((s1, a)) =>
    match MallocAt(s1, 200) case Panicked => Panicked case Done((s2, b)) =>
    match MallocAt(s2, 50) case Panicked => Panicked case Done((s3, c)) =>
    match FreeAt(s3, b) case Panicked => Panicked case Done(s4) => Done(Half(s3, s4, a, b, c))
  }

  /** The heap after the command, and the offsets of the blocks `b` and `d`. */
  function Command(bs: seq<Block>): Outcome<(seq<Block>, nat, nat)> {
    match FirstHalf(bs) case Panicked => Panicked case Done(h) =>
    match MallocAt(h.s4, 150) case Panicked => Panicked case Done((s5, d)) =>
    match Cleanup(s5, h.a, h.c, d) case Panicked => Panicked case Done(s8) => Done((s8, h.b, d))
  }

  function Cleanup(bs: seq<Block>, a: nat, c: nat, d: nat): Outcome<seq<Block>> {
    match FreeAt(bs, a) case Panicked => Panicked case Done(s6) =>
    match FreeAt(s6, c) case Panicked => Panicked case Done(s7) => FreeAt(s7, d)
  }

  lemma MallocAtEffect(bs: seq<Block>, n: Word) returns (x: Alloc)
    requires Valid(bs) && n != 0 && MallocAt(bs, n).Done?
    ensures var (cs, o) := MallocAt(bs, n).value;
            && Valid(cs) && x.offset == o && x.size >= RoundUp(n)
            && x !in Live(bs) && Live(cs) == Live(bs) + {x}
            && forall y :: y in Live(bs) ==> y.offset != o
  {
    x := MallocEffect(bs, n);
    StepValid(bs, Malloc(n));
    var cs := MallocAt(bs, n).value.0;
    forall y | y in Live(bs) ensures y.offset != x.offset {
      if y.offset == x.offset {
        OffsetsDiffer(cs, x, y);
      }
    }
  }

  lemma FreeAtEffect(bs: seq<Block>, x: Alloc)
    requires Valid(bs) && x in Live(bs)
    ensures FreeAt(bs, x.offset).Done? && Valid(FreeAt(bs, x.offset).value)
    ensures Live(FreeAt(bs, x.offset).value) == Live(bs) - {x}
  {
    FreeOne(bs, x.offset);
    forall y | y in Live(bs) && y.offset == x.offset ensures y == x {
      OffsetsDiffer(bs, x, y);
    }
  }

  lemma CleanupRestores(bs: seq<Block>, before: seq<Block>, a: Alloc, c: Alloc, d: Alloc)
    requires Valid(bs) && Valid(before) && Live(bs) == Live(before) + {a, c, d}
    requires a !in Live(before) && c !in Live(before) && d !in Live(before) && a != c && a != d && c != d
    ensures Cleanup(bs, a.offset, c.offset, d.offset) == Done(before)
  {
    FreeAtEffect(bs, a);
    var s6 := FreeAt(bs, a.offset).value;
    FreeAtEffect(s6, c);
    var s7 := FreeAt(s6, c.offset).value;
    FreeAtEffect(s7, d);
    var s8 := FreeAt(s7, d.offset).value;
    RemoveAdded(Live(before), a, c, d);
    Canonical(s8, before);
  }

  lemma RemoveAdded(live: set<Alloc>, a: Alloc, c: Alloc, d: Alloc)
    requires a !in live && c !in live && d !in live
    ensures live + {a, c, d} - {a} - {c} - {d} == live
  {
  }

  lemma AddAround(live: set<Alloc>, a: Alloc, b: Alloc, c: Alloc)
    requires b !in live && b != a && b != c
    ensures live + {a} + {b} + {c} - {b} == live + {a, c}
  {
  }

  lemma FirstHalfEffect(bs: seq<Block>) returns (a: Alloc, b: Alloc, c: Alloc)
    requires Valid(bs) && FirstHalf(bs).Done?
    ensures var h := FirstHalf(bs).value;
            && h.a == a.offset && h.b == b.offset && h.c == c.offset && Valid(h.s3) && Valid(h.s4)
            && b in Live(h.s3) && b.size >= 200 && Live(h.s4) == Live(h.s3) - {b} && Live(h.s4) == Live(bs) + {a, c}
            && a !in Live(bs) && c !in Live(bs) && a != c
  {
    a := MallocAtEffect(bs, 100);
    var s1 := MallocAt(bs, 100).value.0;
    b := MallocAtEffect(s1, 200);
    var s2 := MallocAt(s1, 200).value.0;
    c := MallocAtEffect(s2, 50);
    var s3 := MallocAt(s2, 50).value.0;
    FreeAtEffect(s3, b);
    AddAround(Live(bs), a, b, c);
  }

  /**
   Only the first three allocations can panic: the fourth fits the freed slot.  Otherwise the command leaves the heap
   as it found it, whatever was allocated before; so the figure it prints last, which it says should be 0, is 0 exactly
   when nothing was allocated before.  The block of 150 bytes goes to the slot of the freed block or to a lower one.
   */
  lemma CommandRestores(bs: seq<Block>)
    requires Valid(bs)
    ensures Command(bs).Done? <==> FirstHalf(bs).Done?
    ensures Command(bs).Done? ==>
              var (cs, b, d) := Command(bs).value; cs == bs && d <= b && (LiveBytes(cs) == 0 <==> Live(bs) == {})
  {
    if FirstHalf(bs).Done? {
      var a, b, c := FirstHalfEffect(bs);
      var h := FirstHalf(bs).value;
      SlotReusable(h.s3, h.s4, b);
      var d := MallocAtEffect(h.s4, 150);
      AddLast(Live(bs), a, c, d);
      CleanupRestores(MallocAt(h.s4, 150).value.0, bs, a, c, d);
      NoBytesIffNoneLive(bs, 0);
    }
  }

  /** `k` more allocations of at most 200 bytes are sure to succeed. */
  ghost predicate Ample(bs: seq<Block>, k: nat) {
    HEAP_MAX_SIZE - LiveBytes(bs) >= (|Live(bs)| + k) * 212 + k * 239
  }

  lemma AmpleSucceeds(bs: seq<Block>, n: Word, k: nat)
    requires Valid(bs) && 0 < n <= 200 && k > 0 && Ample(bs, k)
    ensures Step(bs, Malloc(n)).Done?
  {
    Scaled(|Live(bs)| + 1, RoundUp(n) + HEADER_SIZE, 212);
    GuaranteedSuccess(bs, n);
  }

  lemma Scaled(l: nat, x: nat, y: nat)
    requires x <= y
    ensures l * x <= l * y
  {
  }

  lemma AmpleAfter(bs: seq<Block>, cs: seq<Block>, x: Alloc, k: nat)
    requires k > 0 && Ample(bs, k) && x !in Live(bs) && Live(cs) == Live(bs) + {x}
    requires LiveBytes(cs) <= LiveBytes(bs) + 239
    ensures Ample(cs, k - 1)
  {
    AddedOne(Live(bs), x);
    assert Live(bs) + {x} == {x} + Live(bs);
  }

  lemma AmpleAlloc(bs: seq<Block>, n: Word, k: nat) returns (x: Alloc)
    requires Valid(bs) && 0 < n <= 200 && k > 0 && Ample(bs, k)
    ensures MallocAt(bs, n).Done?
    ensures var (cs, o) := MallocAt(bs, n).value;
            Valid(cs) && Ample(cs, k - 1) && Live(cs) == Live(bs) + {x} && x.offset == o
  {
    AmpleSucceeds(bs, n, k);
    MallocCost(bs, n);
    x := MallocAtEffect(bs, n);
    AmpleAfter(bs, MallocAt(bs, n).value.0, x, k);
  }

  /** With 1353 bytes free beside 212 for every live allocation, the command completes. */
  lemma CommandCompletes(bs: seq<Block>)
    requires Valid(bs) && Ample(bs, 3)
    ensures Command(bs).Done?
  {
    var a := AmpleAlloc(bs, 100, 3);
    var s1 := MallocAt(bs, 100).value.0;
    var b := AmpleAlloc(s1, 200, 2);
    var s2 := MallocAt(s1, 200).value.0;
    var c := AmpleAlloc(s2, 50, 1);
    var s3 := MallocAt(s2, 50).value.0;
    FreeAtEffect(s3, b);
    CommandRestores(bs);
  }

  lemma AddLast(live: set<Alloc>, a: Alloc, c: Alloc, d: Alloc)
    ensures live + {a, c} + {d} == live + {a, c, d}
    ensures d !in live + {a, c} ==> d !in live && d != a && d != c
  {
  }

  lemma SlotReusable(s3: seq<Block>, s4: seq<Block>, b: Alloc)
    requires Valid(s3) && Valid(s4) && b in Live(s3) && b.size >= 200 && Live(s4) == Live(s3) - {b}
    ensures MallocAt(s4, 150).Done? && MallocAt(s4, 150).value.1 <= b.offset
  {
    LiveBounds(s3, 0);
    forall x | x in Live(s4) ensures x.offset + HEADER_SIZE + x.size <= b.offset || b.offset + HEADER_SIZE + 152 <= x.offset {
      LiveDisjoint(s3, x, b);
    }
    assert Room(s4, b.offset, 152);
    LowestPlacement(s4, 152);
  }

  lemma {:induction false} NoBytesIffNoneLive(bs: seq<Block>, o: nat)
    ensures LiveBytes(bs) == 0 <==> LiveFrom(bs, o) == {}
  {
    if bs != [] {
      NoBytesIffNoneLive(bs[1..], o + Extent(bs[0]));
      if !bs[0].free {
        assert Alloc(o, bs[0].size) in LiveFrom(bs, o);
      }
    }
  }
}
