/**
 Division and remainder when a number grows by one.
 */
module Arithmetic {

  lemma NextDivision(n: nat, d: nat)
    requires n > 0 && d > 0
    ensures n / d == (n - 1) / d + (if n % d == 0 then 1 else 0)
  {
    var q, r := (n - 1) / d, (n - 1) % d;
    assert n - 1 == q * d + r;
    if r + 1 == d {
      assert (q + 1) * d == q * d + d;
      DivisionUnique(n, d, q + 1, 0);
    } else {
      DivisionUnique(n, d, q, r + 1);
    }
  }

  lemma DivisionUnique(n: nat, d: nat, q: nat, r: nat)
    requires r < d && n == q * d + r
    ensures n / d == q && n % d == r
  {
    var p, s := n / d, n % d;
    assert n == p * d + s;
    assert (p - q) * d == p * d - q * d;
    LargeMultiple(p - q, d);
  }

  lemma LargeMultiple(k: int, d: int)
    requires d > 0
    ensures k >= 1 ==> k * d >= d
    ensures k <= -1 ==> k * d <= -d
  {
    if k >= 1 {
      assert k * d == d + (k - 1) * d && (k - 1) * d >= 0;
    } else if k <= -1 {
      assert k * d == -d + (k + 1) * d && (k + 1) * d <= 0;
    }
  }

  lemma NextRemainder(n: nat, d: nat)
    requires d > 0
    ensures (n + 1) % d == if n % d + 1 == d then 0 else n % d + 1
  {
    var q, r := n / d, n % d;
    assert n == q * d + r;
    if r + 1 == d {
      assert (q + 1) * d == q * d + d;
      DivisionUnique(n + 1, d, q + 1, 0);
    } else {
      DivisionUnique(n + 1, d, q, r + 1);
    }
  }
}
