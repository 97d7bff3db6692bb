/**
 Multiplication by repeated addition and division by repeated subtraction. Sizes
 such as "sectors per cluster" are run-time values, so their products are
 non-linear; writing n * d as Times(n, d), n / d as Quot(n, d) and n % d as
 Rem(n, d) keeps every proof that uses them linear. TimesIsProduct and QuotRem tie
 them to the operators.
 */
module Arith {

  function Times(n: nat, d: nat): (r: nat) {
    if n == 0 then 0 else Times(n - 1, d) + d
  }

  lemma {:induction false} TimesIsProduct(n: nat, d: nat)
    ensures Times(n, d) == n * d
  {
    if n > 0 {
      TimesIsProduct(n - 1, d);
      assert (n - 1) * d + d == n * d;
    }
  }

  function Min(a: int, b: int): int { if a < b then a else b }

  function Quot(n: nat, d: nat): nat
    requires d > 0
  {
    if n < d then 0 else Quot(n - d, d) + 1
  }

  function Rem(n: nat, d: nat): (r: nat)
    requires d > 0
    ensures r < d
  {
    if n < d then n else Rem(n - d, d)
  }

  lemma {:induction false} QuotRem(n: nat, d: nat)
    requires d > 0
    ensures n == Quot(n, d) * d + Rem(n, d)
  {
    if n >= d {
      QuotRem(n - d, d);
      assert (Quot(n - d, d) + 1) * d == Quot(n - d, d) * d + d;
    }
  }

  /** Quotient and remainder are the only ones. */
  lemma {:induction false} QuotRemOf(q: nat, r: nat, d: nat)
    requires r < d
    ensures Quot(q * d + r, d) == q && Rem(q * d + r, d) == r
  {
    if q > 0 {
      QuotRemOf(q - 1, r, d);
      assert q * d + r - d == (q - 1) * d + r >= 0;
    }
  }

  lemma {:induction false} TimesStep(a: nat, b: nat, d: nat)
    requires a < b
    ensures Times(a, d) + d <= Times(b, d)
  {
    if a + 1 < b {
      TimesStep(a, b - 1, d);
    }
  }

  lemma TimesMono(a: nat, b: nat, d: nat)
    requires a <= b
    ensures Times(a, d) <= Times(b, d)
  {
    if a < b {
      TimesStep(a, b, d);
    }
  }

  lemma DivTimes(x: nat, d: nat)
    requires d > 0
    ensures x == Times(x / d, d) + x % d && x % d < d
  {
    TimesIsProduct(x / d, d);
  }

  lemma {:induction false} TimesAdd(m: nat, n: nat, d: nat)
    ensures Times(m + n, d) == Times(m, d) + Times(n, d)
  {
    if n > 0 {
      TimesAdd(m, n - 1, d);
    }
  }
}
