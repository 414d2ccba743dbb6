/** The few facts about minima and division that the solver does not find on its own. */
module Arithmetic {

  function Min(a: int, b: int): int {
    if b < a then b else a
  }

  function Max(a: int, b: int): int {
    if a < b then b else a
  }

  lemma MultiplyMonotone(a: int, b: int, d: nat)
    requires a <= b
    ensures a * d <= b * d
  {}

  lemma DivideAtLeast(n: nat, d: nat, q: nat)
    requires d > 0 && n >= q * d
    ensures n / d >= q
  {
    assert n < (n / d + 1) * d;
    if n / d + 1 <= q {
      MultiplyMonotone(n / d + 1, q, d);
    }
  }

  lemma DivideMonotone(a: nat, b: nat, d: nat)
    requires d > 0 && a <= b
    ensures a / d <= b / d
  {
    assert a >= (a / d) * d;
    DivideAtLeast(b, d, a / d);
  }

  lemma QuotientBelow(n: nat, d: nat, bound: nat)
    requires d > 0 && n < bound * d
    ensures n / d < bound
  {
    assert n / d * d <= n;
    if n / d >= bound {
      MultiplyMonotone(bound, n / d, d);
    }
  }

  lemma QuotientExactly(n: nat, d: nat, k: nat)
    requires d > 0
    ensures k * d <= n < (k + 1) * d <==> k == n / d
  {
    assert n / d * d <= n < (n / d + 1) * d;
    if k * d <= n < (k + 1) * d {
      DivideAtLeast(n, d, k);
      QuotientBelow(n, d, k + 1);
    }
  }
}
