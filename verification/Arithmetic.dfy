/** Word sizes, and the facts about products and quotients that the proofs share. */
module Arithmetic {

  const TWO32: nat := 0x1_0000_0000
  const TWO63: nat := 0x8000_0000_0000_0000
  const TWO64: nat := 0x1_0000_0000_0000_0000
  const TWO192: nat := TWO64 * TWO64 * TWO64
  const TWO256: nat := TWO192 * TWO64

  lemma {:induction false} MulMonotone(a: nat, b: nat, c: nat)
    requires a <= b
    ensures a * c <= b * c && c * a <= c * b
  {
  }

  lemma {:induction false} MulAssociative(a: int, b: int, c: int)
    ensures (a * b) * c == a * (b * c)
  {
  }

  lemma {:induction false} MulOverSum(a: int, b: int, c: int)
    ensures (a + b) * c == a * c + b * c && c * (a + b) == c * a + c * b
  {
  }

  lemma {:induction false} MulOverDifference(a: int, b: int, c: int)
    ensures (a - b) * c == a * c - b * c && c * (a - b) == c * a - c * b
  {
  }

  lemma {:induction false} DivMod(a: int, d: int)
    requires d > 0
    ensures a == a / d * d + a % d && 0 <= a % d < d
  {
  }

  /** A quotient lies below t exactly when the dividend lies below t times the divisor. */
  lemma {:induction false} DivLess(a: nat, d: nat, t: nat)
    requires d > 0
    ensures a / d < t <==> a < t * d
  {
    var q := a / d;
    DivMod(a, d);
    if q < t {
      MulMonotone(q + 1, t, d);
      MulOverSum(q, 1, d);
    } else {
      MulMonotone(t, q, d);
    }
  }

  lemma {:induction false} DivMonotone(a: nat, b: nat, d: nat)
    requires a <= b && d > 0
    ensures a / d <= b / d
  {
    DivLess(b, d, b / d + 1);
    DivLess(a, d, b / d + 1);
  }

  lemma {:induction false} QuotientInSteps(t: nat, m: nat, n: nat)
    requires m > 0 && n > 0
    ensures m * n > 0 && t / m / n == t / (m * n)
  {
    var q := t / m / n;
    DivLess(t / m, n, q);
    DivLess(t / m, n, q + 1);
    DivLess(t, m, q * n);
    DivLess(t, m, (q + 1) * n);
    MulAssociative(q, n, m);
    MulAssociative(q + 1, n, m);
    DivLess(t, m * n, q);
    DivLess(t, m * n, q + 1);
  }

  // ----- 64-bit words

  /** Product of 64-bit words. */
  function Mul64(a: nat, b: nat): (r: nat)
    ensures r < TWO64
    ensures a * b < TWO64 ==> r == a * b
  {
    a * b % TWO64
  }

  function Sub64(a: nat, b: nat): (r: nat)
    requires b < TWO64
    ensures r < TWO64
    ensures b <= a < TWO64 ==> r == a - b
  {
    (a + TWO64 - b) % TWO64
  }

  function Quotient(a: nat, d: nat): nat
    requires d > 0
  {
    DivMod(a, d);
    a / d
  }
}
