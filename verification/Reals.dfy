/** Products of reals, one step at a time. */
module Reals {

  lemma PositiveProduct(x: real, y: real)
    requires x > 0.0 && y > 0.0
    ensures x * y > 0.0
  {
  }

  lemma NonNegProduct(x: real, y: real)
    requires x >= 0.0 && y >= 0.0
    ensures x * y >= 0.0
  {
  }

  /** `n * u` as a sum, so that steps from `n` to `n + 1` are linear. */
  function Times(n: nat, u: real): (r: real)
    ensures u >= 0.0 ==> r >= 0.0
    decreases n, u
  {
    if n == 0 then 0.0 else Times(n - 1, u) + u
  }

  lemma {:induction false} TimesIsProduct(n: nat, u: real)
    ensures Times(n, u) == n as real * u
  {
    if n > 0 {
      TimesIsProduct(n - 1, u);
      assert n as real * u == (n - 1) as real * u + u;
    }
  }
}
