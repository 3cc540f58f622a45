/** Facts about products, quotients and powers of two that the solver needs spelled out. */
module Nonlinear {

  lemma MulAssoc(a: int, b: int, c: int)
    ensures (a * b) * c == a * (b * c)
  {
  }

  lemma MulDist(a: int, b: int, c: int)
    ensures a * (b + c) == a * b + a * c && (b + c) * a == b * a + c * a
  {
  }

  lemma MulMono(a: nat, b: int, c: int)
    requires b <= c
    ensures a * b <= a * c && b * a <= c * a
  {
  }

  /** Quotient and remainder are unique. */
  lemma DivUnique(x: int, m: nat, q: int, r: int)
    requires m > 0 && x == m * q + r && 0 <= r < m
    ensures x / m == q && x % m == r
  {
    var q', r' := x / m, x % m;
    assert x == m * q' + r';
    if q' < q {
      MulMono(m, q' + 1, q);
      MulDist(m, q', 1);
    } else if q < q' {
      MulMono(m, q + 1, q');
      MulDist(m, q, 1);
    }
  }

  lemma DivModFacts(x: int, m: nat)
    requires m > 0
    ensures x == m * (x / m) + x % m && 0 <= x % m < m
  {
  }

  lemma QuotientLess(x: nat, m: nat)
    requires m > 1 && x > 0
    ensures 0 <= x / m < x
  {
    DivModFacts(x, m);
    if x / m < 0 {
      MulMono(m, x / m + 1, 0);
      MulDist(m, x / m, 1);
    } else {
      MulMono(x / m, 2, m);
    }
  }

  /** x / d. */
  function Quotient(x: nat, d: nat): nat
    requires d > 0
  {
    x / d
  }

  const TWO32: nat := 0x1_0000_0000

  /** A 32-bit fraction of n is below n. */
  lemma ScaledBelow(x: nat, n: nat)
    requires x < TWO32 && n > 0
    ensures x * n / TWO32 < n
  {
    assert x * n < TWO32 * n;
  }

  // ---------- powers of two ----------

  function Pow2(n: nat): (r: nat)
    ensures r >= 1
  {
    if n == 0 then 1 else 2 * Pow2(n - 1)
  }

  lemma {:induction false} Pow2Add(a: nat, b: nat)
    ensures Pow2(a + b) == Pow2(a) * Pow2(b)
  {
    if a > 0 {
      Pow2Add(a - 1, b);
      assert Pow2(a + b) == 2 * Pow2(a - 1 + b);
      MulAssoc(2, Pow2(a - 1), Pow2(b));
    }
  }

  lemma {:induction false} Pow2Mono(a: nat, b: nat)
    requires a <= b
    ensures Pow2(a) <= Pow2(b)
    decreases b - a
  {
    if a < b {
      Pow2Mono(a, b - 1);
    }
  }
}
