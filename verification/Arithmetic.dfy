/** Functions and facts on integers that several of the models share. */
module Arithmetic {

  function Min(x: int, y: int): int { if x <= y then x else y }

  function Max(x: int, y: int): int { if x >= y then x else y }

  function Pow2(k: nat): (p: nat)
    ensures p > k
  {
    if k == 0 then 1 else 2 * Pow2(k - 1)
  }

  lemma Mul(k: nat, x: int, y: int)
    ensures x <= y ==> k * x <= k * y && x * k <= y * k
  {}

  lemma Distributes(k: int, x: int, y: int)
    ensures k * (x + y) == k * x + k * y && (x + y) * k == x * k + y * k
  {}

  lemma DivMod(x: nat, d: nat)
    requires d > 0
    ensures x == (x / d) * d + x % d && 0 <= x % d < d && 0 <= x / d
  {}

  /** Quotient and remainder are unique. */
  lemma Remainder(x: nat, d: nat, q: nat)
    requires d > 0 && q * d <= x < q * d + d
    ensures x / d == q && x % d == x - q * d
  {
    var p := x / d;
    DivMod(x, d);
    Mul(d, p + 1, q);
    Mul(d, q + 1, p);
    Distributes(d, p, 1);
    Distributes(d, q, 1);
  }
}
