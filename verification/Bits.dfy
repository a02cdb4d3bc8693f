/**
 The bitwise operators of C on unsigned words, defined on the numbers themselves: bit `k` of `w` is the parity of
 `w` halved `k` times.
 */
module Bits {
  import opened Words

  function Pow2(k: nat): (p: nat)
    ensures p > 0
  {
    if k == 0 then 1 else 2 * Pow2(k - 1)
  }

  predicate Bit(w: nat, k: nat) {
    if k == 0 then w % 2 == 1 else Bit(w / 2, k - 1)
  }

  /** `a | b` */
  function Or(a: nat, b: nat): nat {
    if a == 0 && b == 0 then 0 else
      (if a % 2 == 1 || b % 2 == 1 then 1 else 0) + 2 * Or(a / 2, b / 2)
  }

  /** `a & b` */
  function And(a: nat, b: nat): nat {
    if a == 0 && b == 0 then 0 else
      (if a % 2 == 1 && b % 2 == 1 then 1 else 0) + 2 * And(a / 2, b / 2)
  }

  /** `~w` on 32 bits */
  function Not(w: Word): Word {
    WORD_LIMIT - 1 - w
  }

  lemma {:induction false} OrBit(a: nat, b: nat, k: nat)
    ensures Bit(Or(a, b), k) <==> Bit(a, k) || Bit(b, k)
    decreases k
  {
    if a == 0 && b == 0 {
      ZeroBit(k);
    } else if k > 0 {
      OrBit(a / 2, b / 2, k - 1);
    }
  }

  lemma {:induction false} AndBit(a: nat, b: nat, k: nat)
    ensures Bit(And(a, b), k) <==> Bit(a, k) && Bit(b, k)
    decreases k
  {
    if a == 0 && b == 0 {
      ZeroBit(k);
    } else if k > 0 {
      AndBit(a / 2, b / 2, k - 1);
    }
  }

  lemma {:induction false} ZeroBit(k: nat)
    ensures !Bit(0, k)
  {
    if k > 0 {
      ZeroBit(k - 1);
    }
  }

  lemma {:induction false} PowBit(i: nat, k: nat)
    ensures Bit(Pow2(i), k) <==> i == k
  {
    if i == 0 && k > 0 {
      ZeroBit(k - 1);
    } else if i > 0 && k > 0 {
      PowBit(i - 1, k - 1);
    }
  }

  lemma {:induction false} ComplementBit(w: nat, n: nat, k: nat)
    requires k < n && w < Pow2(n)
    ensures Bit(Pow2(n) - 1 - w, k) <==> !Bit(w, k)
  {
    if k > 0 {
      assert (Pow2(n) - 1 - w) / 2 == Pow2(n - 1) - 1 - w / 2;
      ComplementBit(w / 2, n - 1, k - 1);
    }
  }

  lemma {:induction false} PowAdd(i: nat, k: nat)
    ensures Pow2(i + k) == Pow2(i) * Pow2(k)
  {
    if i > 0 {
      PowAdd(i - 1, k);
    }
  }

  lemma {:induction false} PowMonotone(i: nat, k: nat)
    requires i <= k
    ensures Pow2(i) <= Pow2(k)
  {
    if i < k {
      PowMonotone(i, k - 1);
    }
  }

  lemma Pow32()
    ensures Pow2(12) == 4096 && Pow2(32) == WORD_LIMIT
  {
    assert Pow2(4) == 16;
    PowAdd(4, 4);
    PowAdd(4, 8);
    PowAdd(8, 8);
    PowAdd(16, 16);
  }

  lemma NotBit(w: Word, k: nat)
    requires k < 32
    ensures Bit(Not(w), k) <==> !Bit(w, k)
  {
    Pow32();
    ComplementBit(w, 32, k);
  }

  /** Numbers below 2^n with the same n low bits are equal. */
  lemma {:induction false} SameBits(a: nat, b: nat, n: nat)
    requires a < Pow2(n) && b < Pow2(n)
    requires forall k: nat :: k < n ==> (Bit(a, k) <==> Bit(b, k))
    ensures a == b
  {
    if n > 0 {
      forall k: nat | k < n - 1 ensures Bit(a / 2, k) <==> Bit(b / 2, k) {
        assert Bit(a, k + 1) <==> Bit(b, k + 1);
      }
      SameBits(a / 2, b / 2, n - 1);
      assert Bit(a, 0) <==> Bit(b, 0);
    }
  }

  lemma {:induction false} OrBound(a: nat, b: nat, n: nat)
    requires a < Pow2(n) && b < Pow2(n)
    ensures Or(a, b) < Pow2(n)
  {
    if n > 0 {
      OrBound(a / 2, b / 2, n - 1);
    }
  }

  lemma {:induction false} AndBound(a: nat, b: nat)
    ensures And(a, b) <= a && And(a, b) <= b
  {
    if a != 0 || b != 0 {
      AndBound(a / 2, b / 2);
    }
  }

  lemma {:induction false} AndZero(a: nat)
    ensures And(a, 0) == 0 && And(0, a) == 0
  {
    if a != 0 {
      AndZero(a / 2);
    }
  }

  /** Testing one bit with a mask: `w & (1 << k)`. */
  lemma {:induction false} AndPow(w: nat, k: nat)
    ensures And(w, Pow2(k)) == if Bit(w, k) then Pow2(k) else 0
    decreases k
  {
    if k == 0 {
      AndZero(w / 2);
    } else {
      AndPow(w / 2, k - 1);
    }
  }

  // Shifts, and the low bits that a right shift drops, halving or doubling once per bit.

  /** `w >> n` */
  function Shr(w: nat, n: nat): nat {
    if n == 0 then w else Shr(w / 2, n - 1)
  }

  /** `h << n`, before it is cut to 32 bits */
  function Shl(h: nat, n: nat): nat {
    if n == 0 then h else 2 * Shl(h, n - 1)
  }

  function Low(w: nat, n: nat): nat {
    if n == 0 then 0 else w % 2 + 2 * Low(w / 2, n - 1)
  }

  /** Masking with `2^n - 1` keeps the n low bits. */
  lemma {:induction false} AndLow(w: nat, n: nat)
    ensures And(w, Pow2(n) - 1) == Low(w, n)
    decreases n
  {
    if n == 0 {
      AndZero(w);
    } else {
      AndLow(w / 2, n - 1);
      assert (Pow2(n) - 1) / 2 == Pow2(n - 1) - 1 && (Pow2(n) - 1) % 2 == 1;
    }
  }

  /** Masking with a mask whose n low bits are clear drops those bits. */
  lemma {:induction false} AndHigh(w: nat, m: nat, n: nat)
    ensures And(w, Shl(m, n)) == Shl(And(Shr(w, n), m), n)
    decreases n
  {
    if n > 0 {
      AndHigh(w / 2, m, n - 1);
      if w == 0 && Shl(m, n) == 0 {
        AndZero(0);
      }
    }
  }

  /** Joining a number whose n low bits are clear with one below `2^n` adds them. */
  lemma {:induction false} OrAdds(h: nat, l: nat, n: nat)
    requires l < Pow2(n)
    ensures Or(Shl(h, n), l) == Shl(h, n) + l
    decreases n
  {
    if n == 0 {
      OrZero(h);
    } else {
      OrAdds(h, l / 2, n - 1);
    }
  }

  lemma {:induction false} OrZero(a: nat)
    ensures Or(a, 0) == a && Or(0, a) == a
  {
    if a != 0 {
      OrZero(a / 2);
    }
  }

  lemma OrHalves(a: nat, b: nat)
    ensures Or(a, b) / 2 == Or(a / 2, b / 2) && Or(a, b) % 2 == if a % 2 == 1 || b % 2 == 1 then 1 else 0
  {
  }

  /** Or works on the high bits and on the low bits of a number separately. */
  lemma {:induction false} OrHigh(a: nat, b: nat, n: nat)
    ensures Shr(Or(a, b), n) == Or(Shr(a, n), Shr(b, n))
    decreases n
  {
    if n > 0 {
      OrHalves(a, b);
      OrHigh(a / 2, b / 2, n - 1);
    }
  }

  lemma {:induction false} OrLow(a: nat, b: nat, n: nat)
    ensures Low(Or(a, b), n) == Or(Low(a, n), Low(b, n))
    decreases n
  {
    if n > 0 {
      OrHalves(a, b);
      OrLow(a / 2, b / 2, n - 1);
      OrJoin(a % 2, b % 2, Low(a / 2, n - 1), Low(b / 2, n - 1));
    }
  }

  lemma OrJoin(x: nat, y: nat, a: nat, b: nat)
    requires x < 2 && y < 2
    ensures Or(x + 2 * a, y + 2 * b) == (if x == 1 || y == 1 then 1 else 0) + 2 * Or(a, b)
  {
    OrHalves(x + 2 * a, y + 2 * b);
  }

  /** `b` sets no bit that `a` does not have. */
  lemma {:induction false} OrAbsorbsIff(a: nat, b: nat)
    ensures Or(a, b) == a <==> And(a, b) == b
  {
    if a != 0 || b != 0 {
      OrAbsorbsIff(a / 2, b / 2);
    }
  }

  lemma {:induction false} OrAssociates(a: nat, b: nat, c: nat)
    ensures Or(Or(a, b), c) == Or(a, Or(b, c))
  {
    if a != 0 || b != 0 || c != 0 {
      OrAssociates(a / 2, b / 2, c / 2);
    }
  }

  lemma {:induction false} ShiftAdd(w: nat, i: nat, k: nat)
    ensures Shr(w, i + k) == Shr(Shr(w, i), k)
    ensures Shl(w, i + k) == Shl(Shl(w, i), k)
    ensures Low(w, i + k) == Low(w, i) + Shl(Low(Shr(w, i), k), i)
    decreases i
  {
    if i > 0 {
      ShiftAdd(w / 2, i - 1, k);
      ShiftAdd2(w, i, k);
    }
  }

  lemma {:induction false} ShiftAdd2(w: nat, i: nat, k: nat)
    ensures Shl(w, i + k) == Shl(Shl(w, i), k)
    decreases k
  {
    if k > 0 {
      ShiftAdd2(w, i, k - 1);
    }
  }

  lemma Shift2(w: nat)
    ensures Shr(w, 2) == w / 4 && Shl(w, 2) == 4 * w && Low(w, 2) == w % 4
  {
    assert Shr(w, 2) == Shr(w / 2, 1) == Shr(w / 2 / 2, 0);
    assert Shl(w, 1) == 2 * Shl(w, 0);
    assert Low(w, 2) == w % 2 + 2 * Low(w / 2, 1) && Low(w / 2, 1) == w / 2 % 2 + 2 * Low(w / 2 / 2, 0);
  }

  lemma Shift4(w: nat)
    ensures Shr(w, 4) == w / 16 && Shl(w, 4) == 16 * w && Low(w, 4) == w % 16
  {
    ShiftAdd(w, 2, 2);
    Shift2(w);
    Shift2(w / 4);
    Shift2(4 * w);
    Shift2(w / 4 % 4);
  }

  lemma Shift8(w: nat)
    ensures Shr(w, 8) == w / 256 && Shl(w, 8) == 256 * w && Low(w, 8) == w % 256
  {
    ShiftAdd(w, 4, 4);
    Shift4(w);
    Shift4(w / 16);
    Shift4(16 * w);
    Shift4(w / 16 % 16);
  }

  lemma Shift10(w: nat)
    ensures Shr(w, 10) == w / 1024 && Shl(w, 10) == 1024 * w && Low(w, 10) == w % 1024
  {
    ShiftAdd(w, 8, 2);
    Shift8(w);
    Shift2(w / 256);
    Shift2(256 * w);
    Shift8(w / 256 % 4);
  }

  lemma Shift12(w: nat)
    ensures Shr(w, 12) == w / 4096 && Shl(w, 12) == 4096 * w && Low(w, 12) == w % 4096
  {
    ShiftAdd(w, 8, 4);
    Shift8(w);
    Shift4(w / 256);
    Shift4(256 * w);
    Shift8(w / 256 % 16);
  }

  lemma Shift22(w: nat)
    ensures Shr(w, 22) == w / 4096 / 1024
  {
    ShiftAdd(w, 12, 10);
    Shift12(w);
    Shift10(w / 4096);
  }

  lemma Pow10()
    ensures Pow2(10) == 1024 && Pow2(12) == 4096 && Pow2(20) == 0x10_0000
  {
    assert Pow2(5) == 32;
    PowAdd(5, 5);
    PowAdd(10, 2);
    PowAdd(10, 10);
  }

  lemma Mask10(w: nat)
    ensures And(w, 0x3FF) == w % 1024
  {
    Pow10();
    AndLow(w, 10);
    Shift10(w);
  }

  lemma {:induction false} AndFull(a: nat, n: nat)
    requires a < Pow2(n)
    ensures And(a, Pow2(n) - 1) == a
  {
    if n == 0 {
      AndZero(0);
    } else {
      AndFull(a / 2, n - 1);
      assert (Pow2(n) - 1) / 2 == Pow2(n - 1) - 1 && (Pow2(n) - 1) % 2 == 1;
    }
  }

  /** Dropping the n low bits of a word whose remaining bits the mask keeps. */
  lemma MaskHigh(w: nat, m: nat, n: nat, high: nat, mask: nat)
    requires mask == Shl(m, n) && Shr(w, n) == high && And(high, m) == high
    ensures And(w, mask) == Shl(high, n)
  {
    AndHigh(w, m, n);
  }

  lemma MaskHigh20(w: Word)
    ensures And(w, 0xFFFF_F000) == 4096 * (w / 4096)
  {
    var high := w / 4096;
    assert Shr(w, 12) == high by { Shift12(w); }
    assert And(high, 0xF_FFFF) == high by {
      Pow10();
      AndFull(high, 20);
    }
    assert Shl(high, 12) == 4096 * high by { Shift12(high); }
    MaskHigh(w, 0xF_FFFF, 12, high, 0xFFFF_F000);
  }
}
