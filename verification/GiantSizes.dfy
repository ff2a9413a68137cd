/** The giants: contracts so large that their storage is streamed. Their sizes follow a power law, computed in
64-bit integers. */
module GiantSizes {
  import opened Wrappers
  import opened Arithmetic

  const GIANT_MIN_SLOTS: nat := 1_000_000
  /** Up to this many giants, and no more, the products of the size law fit 64 bits. */
  const MAX_GIANTS: nat := 3_037_000

  // ----- the size law

  function Square2(n: nat): nat { 2 * n * n }

  function Removed(n: nat, i: nat): nat
    requires 1 <= i <= n
  {
    (2 * i - 1) * (n - 1)
  }

  lemma {:induction false} DenominatorBounds(n: nat, i: nat)
    requires 1 <= i <= n
    ensures Removed(n, i) + 2 * n <= Square2(n)
  {
    MulMonotone(2 * i - 1, 2 * n - 1, n - 1);
    LastStratum(n);
  }

  lemma {:induction false} LastStratum(n: nat)
    requires n >= 1
    ensures (2 * n - 1) * (n - 1) + 3 * n - 1 == 2 * n * n
  {
  }

  /** Size of the i-th of n giants. */
  function GiantSlots(n: nat, i: nat): nat
    requires 1 <= i <= n
  {
    DenominatorBounds(n, i);
    GIANT_MIN_SLOTS * Square2(n) / (Square2(n) - Removed(n, i))
  }

  function SumTo(n: nat, k: nat): nat
    requires k <= n
    decreases k
  {
    if k == 0 then 0 else SumTo(n, k - 1) + GiantSlots(n, k)
  }

  /** Slots of n giants together. */
  function GiantTotal(n: nat): nat { SumTo(n, n) }

  /** Every giant has at least GIANT_MIN_SLOTS slots and at most n * GIANT_MIN_SLOTS. */
  lemma {:induction false} GiantBounds(n: nat, i: nat)
    requires 1 <= i <= n
    ensures GIANT_MIN_SLOTS <= GiantSlots(n, i) <= n * GIANT_MIN_SLOTS
  {
    DenominatorBounds(n, i);
    var d := Square2(n) - Removed(n, i);
    MulMonotone(d, Square2(n), GIANT_MIN_SLOTS);
    DivLess(GIANT_MIN_SLOTS * Square2(n), d, GIANT_MIN_SLOTS);
    MulMonotone(2 * n, d, n * GIANT_MIN_SLOTS);
    assert n * GIANT_MIN_SLOTS * (2 * n) == GIANT_MIN_SLOTS * Square2(n);
    MulOverSum(n * GIANT_MIN_SLOTS, 1, d);
    DivLess(GIANT_MIN_SLOTS * Square2(n), d, n * GIANT_MIN_SLOTS + 1);
  }

  lemma {:induction false} DivCross(a: nat, b: nat, c: nat, d: nat)
    requires b > 0 && d > 0 && a * d <= c * b
    ensures a / b <= c / d
  {
    var q := a / b;
    DivMod(a, b);
    MulMonotone(q * b, a, d);
    MulAssociative(q, b, d);
    MulAssociative(q, d, b);
    MulOverSum(c, 1, b);
    if q * d > c { MulMonotone(c + 1, q * d, b); }
    DivLess(c, d, q);
  }

  /** Sizes do not decrease with i. */
  lemma {:induction false} GiantMonotone(n: nat, i: nat, j: nat)
    requires 1 <= i <= j <= n
    ensures GiantSlots(n, i) <= GiantSlots(n, j)
  {
    DenominatorBounds(n, i);
    DenominatorBounds(n, j);
    MulMonotone(2 * i - 1, 2 * j - 1, n - 1);
    var a := GIANT_MIN_SLOTS * Square2(n);
    MulMonotone(Square2(n) - Removed(n, j), Square2(n) - Removed(n, i), a);
    DivCross(a, Square2(n) - Removed(n, i), a, Square2(n) - Removed(n, j));
  }

  /** One giant more: the giants ranked above the new smallest one are no smaller than before. */
  lemma {:induction false} NextStratum(n: nat, i: nat)
    requires 1 <= i <= n
    ensures GiantSlots(n, i) <= GiantSlots(n + 1, i + 1)
  {
    hide Square2, Removed;
    DenominatorBounds(n, i);
    DenominatorBounds(n + 1, i + 1);
    StratumCross(n, i);
    ScaledCross(Square2(n), Square2(n + 1), Removed(n, i), Removed(n + 1, i + 1));
  }

  lemma {:induction false} ScaledCross(s: nat, t: nat, r: nat, u: nat)
    requires r < s && u < t && t * r <= s * u
    ensures GIANT_MIN_SLOTS * s / (s - r) <= GIANT_MIN_SLOTS * t / (t - u)
  {
    var d, e := s - r, t - u;
    MulOverDifference(t, u, s);
    MulOverDifference(s, r, t);
    assert s * e <= t * d;
    MulAssociative(GIANT_MIN_SLOTS, s, e);
    MulAssociative(GIANT_MIN_SLOTS, t, d);
    DivCross(GIANT_MIN_SLOTS * s, d, GIANT_MIN_SLOTS * t, e);
  }

  lemma {:induction false} StratumCross(n: nat, i: nat)
    requires 1 <= i <= n
    ensures Square2(n + 1) * Removed(n, i) <= Square2(n) * Removed(n + 1, i + 1)
  {
    var p := 2 * i - 1;
    var c := n * n * n;
    // (n + 1)^2 * (n - 1) == n^3 + n^2 - n - 1
    var e := n * n - n - 1;
    assert (n + 1) * (n + 1) == n * n + 2 * n + 1;
    assert (n * n + 2 * n + 1) * (n - 1) == c + e by { Cubic(n); }
    Excess(n, p, e, c);
    calc {
      Square2(n + 1) * Removed(n, i);
      == { assert Square2(n + 1) == 2 * ((n + 1) * (n + 1)); }
      (2 * ((n + 1) * (n + 1))) * (p * (n - 1));
      == { Regroup((n + 1) * (n + 1), p, n - 1); }
      2 * (p * (((n + 1) * (n + 1)) * (n - 1)));
      ==
      2 * (p * (c + e));
      <= { AddExcess(p, c, e); }
      2 * ((p + 2) * c);
      == { Regroup3(n, p + 2); }
      Square2(n) * ((p + 2) * n);
      ==
      Square2(n) * Removed(n + 1, i + 1);
    }
  }

  lemma {:induction false} Regroup(s: int, p: int, m: int)
    ensures (2 * s) * (p * m) == 2 * (p * (s * m))
  {
  }

  lemma {:induction false} Cubic(n: nat)
    ensures (n * n + 2 * n + 1) * (n - 1) == n * n * n + (n * n - n - 1)
  {
    var q := n * n;
    assert (q + 2 * n + 1) * (n - 1) == (q + 2 * n + 1) * n - (q + 2 * n + 1);
    assert (q + 2 * n + 1) * n == q * n + 2 * q + n;
  }

  lemma {:induction false} Regroup3(n: nat, p: nat)
    ensures 2 * (p * (n * n * n)) == (2 * n * n) * (p * n)
  {
    var q := n * n;
    assert 2 * n * n == 2 * q;
    Regroup(q, p, n);
    assert n * n * n == q * n;
  }

  lemma {:induction false} AddExcess(p: nat, c: nat, e: int)
    requires p * e <= 2 * c
    ensures p * (c + e) <= (p + 2) * c
  {
    MulOverSum(c, e, p);
    MulOverSum(p, 2, c);
  }

  lemma {:induction false} Excess(n: nat, p: nat, e: int, c: nat)
    requires n >= 1 && p <= 2 * n && e == n * n - n - 1 && c == n * n * n
    ensures p * e <= 2 * c
  {
    var q := n * n;
    if e >= 0 {
      MulMonotone(p, 2 * n, e);
      MulMonotone(e, q, 2 * n);
      assert (2 * n) * q == 2 * (q * n);
    } else {
      NegProduct(p, e);
    }
  }

  lemma {:induction false} NegProduct(p: nat, e: int)
    requires e < 0
    ensures p * e <= 0
  {
  }

  lemma {:induction false} SumShift(n: nat, k: nat)
    requires k <= n
    ensures SumTo(n, k) + GIANT_MIN_SLOTS <= SumTo(n + 1, k + 1)
    decreases k
  {
    if k == 0 {
      GiantBounds(n + 1, 1);
      assert SumTo(n + 1, 1) == SumTo(n + 1, 0) + GiantSlots(n + 1, 1);
    } else {
      SumShift(n, k - 1);
      NextStratum(n, k);
    }
  }

  /** More giants need more slots: at least GIANT_MIN_SLOTS for each. */
  lemma {:induction false} TotalGrows(n: nat, m: nat)
    requires n <= m
    ensures GiantTotal(n) + (m - n) * GIANT_MIN_SLOTS <= GiantTotal(m)
    decreases m
  {
    if n < m {
      TotalGrows(n, m - 1);
      SumShift(m - 1, m - 1);
    }
  }

  lemma {:induction false} SumBound(n: nat, k: nat)
    requires k <= n
    ensures SumTo(n, k) <= k * (n * GIANT_MIN_SLOTS)
    decreases k
  {
    if k > 0 {
      SumBound(n, k - 1);
      GiantBounds(n, k);
      assert k * (n * GIANT_MIN_SLOTS) == (k - 1) * (n * GIANT_MIN_SLOTS) + n * GIANT_MIN_SLOTS;
    }
  }

  // ----- in 64 bits

  lemma {:induction false} SquareBound(k: nat, n: nat)
    requires k <= n <= MAX_GIANTS
    ensures k * n <= n * n <= 9_223_369_000_000
    ensures k * (n * GIANT_MIN_SLOTS) <= 9_223_369_000_000 * GIANT_MIN_SLOTS
  {
    MulMonotone(n, MAX_GIANTS, n);
    MulMonotone(n, MAX_GIANTS, MAX_GIANTS);
    MulMonotone(k, n, n);
    MulAssociative(k, n, GIANT_MIN_SLOTS);
  }

  /** The limit is exact: with one giant more the first product does not fit. */
  lemma {:induction false} MoreGiantsWrap(n: nat)
    ensures n <= MAX_GIANTS <==> GIANT_MIN_SLOTS * Square2(n) < TWO64
  {
    var q := n * n;
    assert Square2(n) == 2 * q by { MulAssociative(2, n, n); }
    if n <= MAX_GIANTS {
      SquareBound(n, n);
    } else {
      MulMonotone(MAX_GIANTS + 1, n, n);
      MulMonotone(MAX_GIANTS + 1, n, MAX_GIANTS + 1);
    }
  }

  lemma {:induction false} NoWrap(n: nat, i: nat)
    requires 1 <= i <= n <= MAX_GIANTS
    ensures 2 * GIANT_MIN_SLOTS * n < TWO64 && 2 * GIANT_MIN_SLOTS * n * n == GIANT_MIN_SLOTS * Square2(n) < TWO64
    ensures 2 * n * n == Square2(n) < TWO64 && (2 * i - 1) * (n - 1) == Removed(n, i) < Square2(n)
  {
    SquareBound(n, n);
    DenominatorBounds(n, i);
    MulAssociative(2, n, n);
    MulAssociative(2 * GIANT_MIN_SLOTS, n, n);
  }

  /** The size of a giant with 64-bit products; no value when the wrapped divisor is zero, which is a run-time
  panic. */
  function Slots64(n: nat, i: nat): Option<nat>
    requires 1 <= i <= n
  {
    var d := Sub64(Mul64(Mul64(2, n), n), Mul64(2 * i - 1, n - 1));
    if d == 0 then None else Some(Quotient(Mul64(Mul64(2 * GIANT_MIN_SLOTS, n), n), d))
  }

  lemma {:induction false} Slots64Exact(n: nat, i: nat)
    requires 1 <= i <= n <= MAX_GIANTS
    ensures Slots64(n, i) == Some(GiantSlots(n, i))
  {
    hide Mul64, Sub64, Quotient, GiantSlots, Square2, Removed;
    NoWrap(n, i);
    SizeIs(n, i);
  }

  lemma {:induction false} SizeIs(n: nat, i: nat)
    requires 1 <= i <= n && Removed(n, i) < Square2(n)
    ensures GiantSlots(n, i) == Quotient(GIANT_MIN_SLOTS * Square2(n), Square2(n) - Removed(n, i))
  {
    hide Square2, Removed;
  }

  /** The wrapped sum of the first k of n sizes; no value once a size has none. */
  function SumTo64(n: nat, k: nat): (sum: Option<nat>)
    requires k <= n
    ensures sum.Some? ==> sum.value < TWO64
    decreases k
  {
    if k == 0 then Some(0)
    else if SumTo64(n, k - 1).Some? && Slots64(n, k).Some? then
      Some((SumTo64(n, k - 1).value + Slots64(n, k).value) % TWO64)
    else None
  }

  lemma {:induction false} TotalFits(n: nat, k: nat)
    requires k <= n <= MAX_GIANTS
    ensures SumTo(n, k) < TWO64
  {
    hide SumTo;
    SumBound(n, k);
    SquareBound(k, n);
  }

  /** Up to MAX_GIANTS nothing wraps. */
  lemma {:induction false} SumTo64Exact(n: nat, k: nat)
    requires k <= n <= MAX_GIANTS
    ensures SumTo64(n, k) == Some(SumTo(n, k))
    decreases k
  {
    hide Slots64, GiantSlots;
    if k > 0 {
      SumTo64Exact(n, k - 1);
      Slots64Exact(n, k);
      TotalFits(n, k);
    }
  }

  method GiantSlotSum(n: nat) returns (sum: Option<nat>)
    ensures sum == SumTo64(n, n)
    ensures n <= MAX_GIANTS ==> sum == Some(GiantTotal(n))
  {
    hide Slots64, GiantSlots, SumTo;
    if n <= MAX_GIANTS { SumTo64Exact(n, n); }
    sum := Some(0);
    for i := 1 to n + 1
      invariant sum == SumTo64(n, i - 1)
    {
      var x := Slots64(n, i);
      if sum.Some? { sum := if x.Some? then Some((sum.value + x.value) % TWO64) else None; }
    }
  }
}
