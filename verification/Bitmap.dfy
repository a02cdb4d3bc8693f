/**
 A bitmap of 32-bit words, one bit per physical frame, seen as the set of frames whose bit is clear.
 */
module Bitmap {
  import opened Words
  import opened Bits

  const WORD_BITS := 32
  const FULL: Word := 0xFFFF_FFFF

  predicate Used(bits: seq<Word>, f: nat)
    requires f < WORD_BITS * |bits|
  {
    Bit(bits[f / WORD_BITS], f % WORD_BITS)
  }

  /** The frames whose bit is clear. */
  ghost function FreeFrames(bits: seq<Word>): set<nat> {
    set f: nat | f < WORD_BITS * |bits| && !Used(bits, f)
  }

  /** `1 << k` */
  function Mask(k: nat): Word
    requires k < WORD_BITS
  {
    MaskBound(k);
    Pow2(k)
  }

  lemma MaskBound(k: nat)
    requires k < WORD_BITS
    ensures Pow2(k) < WORD_LIMIT
  {
    PowMonotone(k + 1, WORD_BITS);
    Pow32();
  }

  /** `w | (1 << k)` */
  function SetBit(w: Word, k: nat): Word
    requires k < WORD_BITS
  {
    MaskBound(k);
    Pow32();
    OrBound(w, Pow2(k), 32);
    Or(w, Mask(k))
  }

  /** `w & ~(1 << k)` */
  function ClearBit(w: Word, k: nat): Word
    requires k < WORD_BITS
  {
    AndBound(w, Not(Mask(k)));
    And(w, Not(Mask(k)))
  }

  /** Setting or clearing bit `k` changes bit `k` and no other. */
  lemma ChangeBit(w: Word, k: nat, j: nat)
    requires k < WORD_BITS && j < WORD_BITS
    ensures Bit(SetBit(w, k), j) <==> j == k || Bit(w, j)
    ensures Bit(ClearBit(w, k), j) <==> j != k && Bit(w, j)
  {
    PowBit(k, j);
    OrBit(w, Mask(k), j);
    NotBit(Mask(k), j);
    AndBit(w, Not(Mask(k)), j);
  }

  lemma SameWord(v: Word, w: Word)
    requires forall k: nat :: k < WORD_BITS ==> (Bit(v, k) <==> Bit(w, k))
    ensures v == w
  {
    Pow32();
    Bits.SameBits(v, w, WORD_BITS);
  }

  function WithUsed(bits: seq<Word>, f: nat): seq<Word>
    requires f < WORD_BITS * |bits|
  {
    bits[f / WORD_BITS := SetBit(bits[f / WORD_BITS], f % WORD_BITS)]
  }

  function WithFree(bits: seq<Word>, f: nat): seq<Word>
    requires f < WORD_BITS * |bits|
  {
    bits[f / WORD_BITS := ClearBit(bits[f / WORD_BITS], f % WORD_BITS)]
  }

  lemma MarkUsed(bits: seq<Word>, f: nat)
    requires f < WORD_BITS * |bits|
    ensures FreeFrames(WithUsed(bits, f)) == FreeFrames(bits) - {f}
  {
    forall g: nat | g < WORD_BITS * |bits|
      ensures Used(WithUsed(bits, f), g) <==> g == f || Used(bits, g)
    {
      ChangeBit(bits[f / WORD_BITS], f % WORD_BITS, g % WORD_BITS);
    }
  }

  lemma MarkFree(bits: seq<Word>, f: nat)
    requires f < WORD_BITS * |bits|
    ensures FreeFrames(WithFree(bits, f)) == FreeFrames(bits) + {f}
  {
    forall g: nat | g < WORD_BITS * |bits|
      ensures Used(WithFree(bits, f), g) <==> g != f && Used(bits, g)
    {
      ChangeBit(bits[f / WORD_BITS], f % WORD_BITS, g % WORD_BITS);
    }
  }

  /** A word is all ones exactly when none of its frames is free: what lets the scan skip full words. */
  lemma FullWordIff(bits: seq<Word>, i: nat)
    requires i < |bits|
    ensures bits[i] == FULL <==> forall f: nat :: WORD_BITS * i <= f < WORD_BITS * i + WORD_BITS ==> Used(bits, f)
  {
    forall k: nat | k < WORD_BITS ensures Bit(FULL, k) {
      NotBit(0, k);
      ZeroBit(k);
    }
    if forall f: nat :: WORD_BITS * i <= f < WORD_BITS * i + WORD_BITS ==> Used(bits, f) {
      forall k: nat | k < WORD_BITS ensures Bit(bits[i], k) <==> Bit(FULL, k) {
        assert Used(bits, WORD_BITS * i + k);
      }
      SameWord(bits[i], FULL);
    }
  }

  /** The set of free frames determines the bitmap. */
  lemma FreeFramesDetermine(bits: seq<Word>, others: seq<Word>)
    requires |bits| == |others| && FreeFrames(bits) == FreeFrames(others)
    ensures bits == others
  {
    forall i | 0 <= i < |bits| ensures bits[i] == others[i] {
      forall k: nat | k < WORD_BITS ensures Bit(bits[i], k) <==> Bit(others[i], k) {
        var f := WORD_BITS * i + k;
        assert f in FreeFrames(bits) <==> !Used(bits, f);
        assert f in FreeFrames(others) <==> !Used(others, f);
      }
      SameWord(bits[i], others[i]);
    }
  }
}
