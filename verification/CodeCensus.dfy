/** Code lengths of the remaining mainnet codes: a multiplier coprime to the number of codes permutes the
ranks, and the permuted rank is looked up in a table of length knots. */
module CodeCensus {
  import opened Arithmetic
  import opened Weights

  const KNUTH: nat := 0x9E37_79B9_7F4A_7C15

  // ----- greatest common divisors

  function Gcd(a: nat, b: nat): (g: nat)
    ensures a > 0 || b > 0 ==> g > 0
    decreases b
  {
    if b == 0 then a else Gcd(b, a % b)
  }

  method ComputeGcd(x: nat, y: nat) returns (g: nat)
    ensures g == Gcd(x, y)
  {
    var a, b := x, y;
    while b != 0
      invariant Gcd(a, b) == Gcd(x, y)
      decreases b
    {
      a, b := b, a % b;
    }
    g := a;
  }

  /** Coefficients with a * u + b * v == Gcd(a, b). */
  ghost function Bezout(a: nat, b: nat): (c: (int, int))
    ensures a * c.0 + b * c.1 == Gcd(a, b)
    decreases b
  {
    if b == 0 then (1, 0) else
      var (u, v) := Bezout(b, a % b);
      assert b * u + (a % b) * v == Gcd(b, a % b);
      assert a == b * (a / b) + a % b;
      calc {
        a * v + b * (u - (a / b) * v);
        == { MulOverDifference(u, (a / b) * v, b); }
        a * v + b * u - b * ((a / b) * v);
        == { MulAssociative(b, a / b, v); }
        a * v + b * u - (b * (a / b)) * v;
        == { MulOverDifference(a, b * (a / b), v); }
        (a - b * (a / b)) * v + b * u;
        ==
        (a % b) * v + b * u;
      }
      (v, u - (a / b) * v)
  }

  /** The greatest common divisor divides both numbers. */
  lemma {:induction false} GcdDivides(a: nat, b: nat)
    requires a > 0 || b > 0
    ensures a % Gcd(a, b) == 0 && b % Gcd(a, b) == 0
    decreases b
  {
    if b == 0 {
      QuotientUnique(a, a, 1, 0);
      QuotientUnique(0, a, 0, 0);
    } else {
      var g := Gcd(a, b);
      assert g == Gcd(b, a % b);
      GcdDivides(b, a % b);
      Combination(b, a % b, a / b, 1, g);
      DivMod(a, b);
    }
  }

  /** A common divisor divides every combination. */
  lemma {:induction false} Combination(a: int, b: int, u: int, v: int, d: nat)
    requires d > 0 && a % d == 0 && b % d == 0
    ensures (a * u + b * v) % d == 0
  {
    var x, y := a / d, b / d;
    DivMod(a, d);
    DivMod(b, d);
    Rotate(x, d, u);
    Rotate(y, d, v);
    MulOverSum(x * u, y * v, d);
    QuotientUnique(a * u + b * v, d, x * u + y * v, 0);
  }

  /** Every common divisor divides the greatest one. */
  lemma {:induction false} GcdIsGreatest(a: nat, b: nat, d: nat)
    requires d > 0 && a % d == 0 && b % d == 0
    ensures Gcd(a, b) % d == 0
  {
    var (u, v) := Bezout(a, b);
    Combination(a, b, u, v, d);
  }

  // ----- the multiplier

  /** One is coprime to every number. */
  lemma {:induction false} GcdOfOne(n: nat)
    requires n > 0
    ensures Gcd(1, n) == 1
  {
    hide Gcd;
    GcdDivides(1, n);
    var g := Gcd(1, n);
    if g > 1 { QuotientUnique(1, g, 0, 1); }
  }

  /** Going up from start, and on from 1 behind n - 1, every number passed before m shares a divisor with
  n. */
  ghost predicate NoneBefore(start: nat, m: nat, n: nat) {
    if start <= m then forall x :: start <= x < m ==> Gcd(x, n) != 1
    else (forall x :: start <= x < n ==> Gcd(x, n) != 1) && (forall x :: 1 <= x < m ==> Gcd(x, n) != 1)
  }

  /** The first number coprime to n in the cycle 1, ..., n - 1, starting from Knuth's constant modulo n, or
  from 1 where n divides the constant. */
  method CoprimeMultiplier(n: nat) returns (m: nat)
    ensures n >= 1 ==> Gcd(m, n) == 1
    ensures n <= 1 ==> m == 1
    ensures n > 1 ==> 1 <= m < n
    ensures n > 1 && 0x9E37_79B9_7F4A_7C15 % n != 0 ==> NoneBefore(0x9E37_79B9_7F4A_7C15 % n, m, n)
    ensures n > 1 && 0x9E37_79B9_7F4A_7C15 % n == 0 ==> m == 1
  {
    if n <= 1 {
      if n == 1 { GcdOfOne(1); }
      return 1;
    }
    GcdOfOne(n);
    m := Residue(KNUTH, n);
    if m == 0 { m := 1; }
    ghost var start := m;
    var g := ComputeGcd(m, n);
    while g != 1
      invariant 1 <= m < n && g == Gcd(m, n) && NoneBefore(start, m, n)
      invariant m == start || start != 1
      decreases if m == 1 then 0 else n - m + 1
    {
      m := m + 1;
      if m >= n { m := 1; }
      g := ComputeGcd(m, n);
    }
  }

  // ----- multiplication by a coprime number permutes the residues

  lemma {:induction false} QuotientUnique(x: int, n: int, q: int, r: int)
    requires n > 0 && x == q * n + r && 0 <= r < n
    ensures x / n == q && x % n == r
  {
    var d := x / n - q;
    assert x == (x / n) * n + x % n;
    assert d * n == (x / n) * n - q * n;
    if d >= 1 { SmallMultiple(d, n); } else if d <= -1 { SmallMultiple(-d, n); }
  }

  lemma {:induction false} SmallMultiple(d: int, n: int)
    requires n > 0 && d >= 1
    ensures d * n >= n && (-d) * n <= -n
  {
  }

  /** x and x + k * n have the same remainder. */
  lemma {:induction false} ModShift(x: int, k: int, n: int)
    requires n > 0
    ensures (x + k * n) % n == x % n
  {
    var q, r := x / n, x % n;
    assert x + k * n == (q + k) * n + r;
    QuotientUnique(x + k * n, n, q + k, r);
  }

  /** Where rank r goes. */
  function Permuted(r: nat, m: nat, n: nat): nat
    requires n > 0
  {
    r * m % n
  }

  /** Every residue c has a preimage. */
  ghost function Preimage(c: nat, m: nat, n: nat): (r: nat)
    requires c < n && Gcd(m, n) == 1
    ensures r < n && Permuted(r, m, n) == c
  {
    var (u, v) := Bezout(m, n);
    var r := (u * c) % n;
    assert m * u + n * v == 1;
    PreimageWorks(c, m, n, u, v);
    r
  }

  lemma {:induction false} PreimageWorks(c: nat, m: nat, n: nat, u: int, v: int)
    requires c < n && m * u + n * v == 1
    ensures ((u * c) % n) * m % n == c
  {
    var q, r := (u * c) / n, (u * c) % n;
    DivMod(u * c, n);
    PreimageSteps(c, m, n, u, v, q, r);
    ModShift(c, -(v * c) - q * m, n);
    QuotientUnique(c, n, 0, c);
  }

  lemma {:induction false} PreimageSteps(c: int, m: int, n: int, u: int, v: int, q: int, r: int)
    requires m * u + n * v == 1 && u * c == q * n + r
    ensures r * m == c + (-(v * c) - q * m) * n
  {
    var x, y, z := u * c, q * n, n * v;
    MulOverDifference(x, y, m);
    Rotate(u, c, m);
    Rotate(q, n, m);
    MulOverDifference(1, z, c);
    Rotate(n, v, c);
    Collect(v * c, q * m, n);
  }

  lemma {:induction false} Collect(a: int, b: int, n: int)
    ensures -(a * n) - b * n == (-a - b) * n
  {
  }

  /** No two ranks go to the same residue. */
  lemma {:induction false} PermutedInjective(x: nat, y: nat, m: nat, n: nat)
    requires x < n && y < n && Gcd(m, n) == 1 && Permuted(x, m, n) == Permuted(y, m, n)
    ensures x == y
  {
    var (u, v) := Bezout(m, n);
    var k := SameResidue(x * m, y * m, n);
    MulOverDifference(x, y, m);
    var d := x - y;
    Cancelled(d, m, n, u, v, k);
    var j := k * u + v * d;
    if j >= 1 { SmallMultiple(j, n); } else if j <= -1 { SmallMultiple(-j, n); }
  }

  lemma {:induction false} SameResidue(a: int, b: int, n: int) returns (k: int)
    requires n > 0 && a % n == b % n
    ensures a - b == k * n
  {
    k := a / n - b / n;
    assert a == (a / n) * n + a % n;
    assert b == (b / n) * n + b % n;
    MulOverDifference(a / n, b / n, n);
  }

  lemma {:induction false} Cancelled(d: int, m: int, n: int, u: int, v: int, k: int)
    requires m * u + n * v == 1 && d * m == k * n
    ensures d == (k * u + v * d) * n
  {
    MulOverSum(m * u, n * v, d);
    assert (m * u + n * v) * d == d;
    Rotate(m, u, d);
    Rotate(n, v, d);
    assert (n * v) * d == (v * d) * n;
    Rotate(k, n, u);
    assert (k * n) * u == (k * u) * n;
    MulOverSum(k * u, v * d, n);
  }

  lemma {:induction false} Rotate(a: int, b: int, c: int)
    ensures (a * b) * c == (c * a) * b == (b * c) * a == (a * c) * b
  {
  }

  // ----- the knot table

  /** cum codes have length at most len. */
  datatype Knot = Knot(len: nat, cum: nat)

  predicate WellFormed(k: seq<Knot>, n: nat) {
    && |k| > 0
    && k[0].len > 0
    && (forall a, b :: 0 <= a < b < |k| ==> k[a].len < k[b].len && k[a].cum <= k[b].cum)
    && k[|k| - 1].cum == n > 0
  }

  /** No product of the table's numbers exceeds 64 bits. */
  predicate FitsWords(k: seq<Knot>, n: nat)
    requires |k| > 0
  {
    n <= TWO32 && k[|k| - 1].len <= TWO32
  }

  function Below(k: seq<Knot>, i: nat): Knot
    requires i <= |k|
  {
    if i > 0 then k[i - 1] else Knot(0, 0)
  }

  /** local lies in the interval that ends at knot i. */
  predicate InInterval(k: seq<Knot>, i: nat, local: nat) {
    i < |k| && Below(k, i).cum <= local < k[i].cum
  }

  lemma {:induction false} Order(k: seq<Knot>, n: nat, i: nat, j: nat)
    requires WellFormed(k, n) && i <= j <= |k|
    ensures Below(k, i).len <= Below(k, j).len && Below(k, i).cum <= Below(k, j).cum
    ensures i < j ==> Below(k, i).len < Below(k, j).len
  {
  }

  lemma {:induction false} IntervalUnique(k: seq<Knot>, n: nat, i: nat, j: nat, local: nat)
    requires WellFormed(k, n) && InInterval(k, i, local) && InInterval(k, j, local)
    ensures i == j
  {
    if i < j { Order(k, n, i + 1, j); } else if j < i { Order(k, n, j + 1, i); }
  }

  /** x of count, scaled to span and rounded down. */
  function Share(x: nat, span: nat, count: nat): nat
    requires count > 0
  {
    DivLess(x * span, count, 0);
    x * span / count
  }

  lemma {:induction false} ShortProduct(a: nat, b: nat)
    requires a < TWO32 && b <= TWO32
    ensures a * b < TWO64
  {
    MulMonotone(b, TWO32, a);
    assert a * TWO32 < TWO64;
  }

  /** The same with a 64-bit product. */
  function Share64(x: nat, span: nat, count: nat): nat
    requires count > 0
  {
    Share(Mul64(x, span), 1, count)
  }

  lemma {:induction false} ShareFits(x: nat, span: nat, count: nat)
    requires count > 0 && x < TWO32 && span <= TWO32
    ensures Share64(x, span, count) == Share(x, span, count)
  {
    hide Mul64;
    ProductFits(x, span);
    assert x * span * 1 == x * span;
  }

  /** The length given to a permuted rank in interval i: spread evenly over the lengths of the
  interval. */
  function LenAt(k: seq<Knot>, i: nat, local: nat): nat
    requires InInterval(k, i, local) && Below(k, i).len <= k[i].len
  {
    var b := Below(k, i);
    b.len + 1 + Share(local - b.cum, k[i].len - b.len, k[i].cum - b.cum)
  }

  /** local gets length len. */
  ghost predicate HasLen(k: seq<Knot>, local: nat, len: nat) {
    exists i: nat :: InInterval(k, i, local) && Below(k, i).len <= k[i].len && len == LenAt(k, i, local)
  }

  /** The same when the products and the sum are 64-bit words. */
  function LenAt64(k: seq<Knot>, i: nat, local: nat): nat
    requires InInterval(k, i, local) && Below(k, i).len <= k[i].len
  {
    var b := Below(k, i);
    (b.len + 1 + Share64(local - b.cum, k[i].len - b.len, k[i].cum - b.cum)) % TWO64
  }

  /** In a table of at most 2^32 codes and lengths nothing wraps. */
  lemma {:induction false} LenFits(k: seq<Knot>, n: nat, i: nat, local: nat)
    requires WellFormed(k, n) && FitsWords(k, n) && InInterval(k, i, local)
    ensures Below(k, i).len <= k[i].len && LenAt64(k, i, local) == LenAt(k, i, local)
  {
    hide Share, Share64;
    Order(k, n, i, i + 1);
    Order(k, n, i + 1, |k|);
    var b := Below(k, i);
    ShareFits(local - b.cum, k[i].len - b.len, k[i].cum - b.cum);
    LenInInterval(k, n, i, local);
  }

  /** local lies in the interval of knot i, and got is the length that an even spread of the interval's codes
  over its lengths gives it: of `count` codes over `span` lengths, code x gets length t when t - 1 is x * span / count
  rounded down. */
  ghost predicate Spread(k: seq<Knot>, i: nat, local: nat, got: nat) {
    i < |k| &&
    var b := if i > 0 then k[i - 1] else Knot(0, 0);
    var span, count := k[i].len - b.len, k[i].cum - b.cum;
    && b.cum <= local < k[i].cum && b.len < got <= k[i].len
    && (got - b.len - 1) * count <= (local - b.cum) * span < (got - b.len) * count
  }

  /** The same with the product and the sum cut to 64 bits. */
  ghost predicate Spread64(k: seq<Knot>, i: nat, local: nat, got: nat) {
    i < |k| &&
    var b := if i > 0 then k[i - 1] else Knot(0, 0);
    var span, count := k[i].len - b.len, k[i].cum - b.cum;
    b.cum <= local < k[i].cum && Length64(b.len, (local - b.cum) * span % TWO64, count, got)
  }

  /** got is the 64-bit word behind first + x / count, rounded down. */
  ghost predicate Length64(first: nat, x: int, count: int, got: nat) {
    exists t: nat :: Between(t, x, count) && got == (first + 1 + t) % TWO64
  }

  /** x lies in the t-th stretch of the given length. */
  predicate Between(t: nat, x: int, length: int) { t * length <= x < (t + 1) * length }

  lemma {:induction false} ShareIs(x: nat, span: nat, count: nat)
    requires count > 0
    ensures Share(x, span, count) * count <= x * span < (Share(x, span, count) + 1) * count
  {
    DivLess(x * span, count, Share(x, span, count));
    DivLess(x * span, count, Share(x, span, count) + 1);
  }

  /** The length given to a permuted rank is the even spread of its interval. */
  lemma {:induction false} HasLenIff(k: seq<Knot>, n: nat, local: nat, got: nat)
    requires WellFormed(k, n)
    ensures HasLen(k, local, got) <==> exists i: nat :: Spread(k, i, local, got)
  {
    hide WellFormed;
    if HasLen(k, local, got) {
      var i: nat :| InInterval(k, i, local) && Below(k, i).len <= k[i].len && got == LenAt(k, i, local);
      LenIsSpread(k, n, i, local);
    }
    if i: nat :| Spread(k, i, local, got) {
      assert InInterval(k, i, local);
      LenIsSpread(k, n, i, local);
      SpreadUnique(k, i, local, got, LenAt(k, i, local));
    }
  }

  lemma {:induction false} LenIsSpread(k: seq<Knot>, n: nat, i: nat, local: nat)
    requires WellFormed(k, n) && InInterval(k, i, local)
    ensures Below(k, i).len <= k[i].len && Spread(k, i, local, LenAt(k, i, local))
  {
    hide WellFormed, Share;
    LenInInterval(k, n, i, local);
    var b := Below(k, i);
    ShareIs(local - b.cum, k[i].len - b.len, k[i].cum - b.cum);
  }

  lemma {:induction false} SpreadUnique(k: seq<Knot>, i: nat, local: nat, x: nat, y: nat)
    requires Spread(k, i, local, x) && Spread(k, i, local, y)
    ensures x == y
  {
    var b := Below(k, i);
    var count := k[i].cum - b.cum;
    if x < y { MulMonotone(x - b.len, y - b.len - 1, count); }
    if y < x { MulMonotone(y - b.len, x - b.len - 1, count); }
  }

  lemma {:induction false} LenIsSpread64(k: seq<Knot>, i: nat, local: nat)
    requires InInterval(k, i, local) && Below(k, i).len <= k[i].len
    ensures Spread64(k, i, local, LenAt64(k, i, local))
  {
    hide Share;
    var b := Below(k, i);
    var span, count := k[i].len - b.len, k[i].cum - b.cum;
    var x, t := Mul64(local - b.cum, span), Share64(local - b.cum, span, count);
    ShareIs(x, 1, count);
    assert x * 1 == x && t == Share(x, 1, count);
    assert Between(t, x, count);
    assert Length64(b.len, x, count, LenAt64(k, i, local));
    assert x == (local - b.cum) * span % TWO64;
  }

  /** The code length of a rank, with 64-bit products. */
  method CodeLen(topLens: seq<nat>, k: seq<Knot>, m: nat, n: nat, rank: nat) returns (len: nat)
    requires WellFormed(k, n) && m <= n && rank < |topLens| + n
    ensures rank < |topLens| ==> len == topLens[rank]
    ensures rank >= |topLens| ==>
              var local := (rank - |topLens|) * m % TWO64 % n;
              exists i: nat :: Spread64(k, i, local, len)
    ensures rank >= |topLens| && FitsWords(k, n) ==>
              var local := (rank - |topLens|) * m % n;
              exists i: nat :: Spread(k, i, local, len)
    ensures rank >= |topLens| && FitsWords(k, n) ==> HasLen(k, Permuted(rank - |topLens|, m, n), len)
  {
    hide HasLen, WellFormed, Spread, Spread64;
    NotEmpty(k, n);
    if rank < |topLens| {
      return topLens[rank];
    }
    var local := Permuted64(rank - |topLens|, m, n);
    if n <= TWO32 { PermutedFits(rank - |topLens|, m, n); }
    len := SpreadLen(k, n, local);
    if FitsWords(k, n) { HasLenIff(k, n, local, len); }
  }

  function Residue(a: nat, n: nat): (r: nat)
    requires n > 0
    ensures r < n && r == a % n
  {
    DivMod(a, n);
    a % n
  }

  lemma {:induction false} ProductFits(a: nat, b: nat)
    requires a < TWO32 && b <= TWO32
    ensures Mul64(a, b) == a * b
  {
    ShortProduct(a, b);
  }

  /** Where rank r goes, with a 64-bit product. */
  function Permuted64(r: nat, m: nat, n: nat): (local: nat)
    requires n > 0
    ensures local < n
  {
    Residue(Mul64(r, m), n)
  }

  lemma {:induction false} PermutedFits(r: nat, m: nat, n: nat)
    requires r < n && m <= n <= TWO32
    ensures Permuted64(r, m, n) == Permuted(r, m, n)
  {
    hide Mul64;
    ProductFits(r, m);
  }

  lemma {:induction false} NotEmpty(k: seq<Knot>, n: nat)
    requires WellFormed(k, n)
    ensures |k| > 0 && n > 0
  {
  }

  method SpreadLen(k: seq<Knot>, n: nat, local: nat) returns (len: nat)
    requires WellFormed(k, n) && local < n
    ensures exists i: nat :: Spread64(k, i, local, len)
    ensures FitsWords(k, n) ==> HasLen(k, local, len)
  {
    hide LenAt, LenAt64, Spread64;
    var cums := seq(|k|, i requires 0 <= i < |k| => k[i].cum);
    var i := Search(cums, local);
    assert cums[|k| - 1] == n;
    assert i < |k|;
    assert cums[i] > local;
    assert i > 0 ==> cums[i - 1] <= local;
    assert InInterval(k, i, local);
    Order(k, n, i, i + 1);
    LenIsSpread64(k, i, local);
    len := LenAt64(k, i, local);
    if FitsWords(k, n) { LenFits(k, n, i, local); }
  }

  // ----- the census

  function CeilDiv(y: nat, l: nat): nat
    requires l > 0
  {
    (y + l - 1) / l
  }

  lemma {:induction false} CeilLess(x: nat, y: nat, l: nat)
    requires l > 0
    ensures x < CeilDiv(y, l) <==> x * l < y
  {
    DivLess(y + l - 1, l, x + 1);
    MulOverSum(x, 1, l);
  }

  /** Of `count` codes spread over `span` lengths, those with one of the first t lengths are the first
  t * count / span, rounded up. */
  lemma {:induction false} SpreadIff(x: nat, span: nat, count: nat, t: nat)
    requires span > 0 && count > 0
    ensures Share(x, span, count) < t <==> x < CeilDiv(t * count, span)
  {
    DivLess(x * span, count, t);
    CeilLess(x, t * count, span);
  }

  /** How many codes have length at most len, for a length in the interval of knot i. */
  function Cdf(k: seq<Knot>, i: nat, len: nat): nat
    requires i < |k| && Below(k, i).len < len <= k[i].len && Below(k, i).cum <= k[i].cum
  {
    var b := Below(k, i);
    b.cum + CeilDiv((len - b.len) * (k[i].cum - b.cum), k[i].len - b.len)
  }

  lemma {:induction false} CeilOfShare(t: nat, span: nat, count: nat)
    requires 0 < t <= span
    ensures CeilDiv(t * count, span) <= count
    ensures t == span ==> CeilDiv(t * count, span) == count
  {
    CeilLess(count, t * count, span);
    MulMonotone(t, span, count);
    assert count * span == span * count;
    if t == span && count > 0 {
      CeilLess(count - 1, t * count, span);
      MulOverSum(count - 1, 1, span);
    }
  }

  /** Within the interval, the table is met exactly. */
  lemma {:induction false} LenInInterval(k: seq<Knot>, n: nat, i: nat, local: nat)
    requires WellFormed(k, n) && InInterval(k, i, local)
    ensures Below(k, i).len < k[i].len && Below(k, i).len < LenAt(k, i, local) <= k[i].len
    ensures forall len :: Below(k, i).len < len <= k[i].len ==>
                            (LenAt(k, i, local) <= len <==> local < Cdf(k, i, len))
  {
    hide Share, CeilDiv;
    var b := Below(k, i);
    Order(k, n, i, i + 1);
    var span, count := k[i].len - b.len, k[i].cum - b.cum;
    SpreadIff(local - b.cum, span, count, span);
    CeilOfShare(span, span, count);
    forall len | b.len < len <= k[i].len
      ensures LenAt(k, i, local) <= len <==> local < Cdf(k, i, len)
    {
      SpreadIff(local - b.cum, span, count, len - b.len);
    }
  }

  lemma {:induction false} CdfBetween(k: seq<Knot>, n: nat, i: nat, len: nat)
    requires WellFormed(k, n) && i < |k| && Below(k, i).len < len <= k[i].len
    ensures Below(k, i).cum <= Cdf(k, i, len) <= k[i].cum <= n
    ensures len == k[i].len ==> Cdf(k, i, len) == k[i].cum
  {
    Order(k, n, i, i + 1);
    Order(k, n, i + 1, |k|);
    var b := Below(k, i);
    CeilOfShare(len - b.len, k[i].len - b.len, k[i].cum - b.cum);
  }

  /** The share that c - b.cum codes have of the lengths between two knots reaches up to len. */
  predicate Reaches(b: Knot, next: Knot, c: nat, len: nat) {
    (c - b.cum) * (next.len - b.len) >= (len - b.len) * (next.cum - b.cum)
  }

  /** The first Cdf codes are those below the interval, and in it those whose share does not reach len. */
  lemma {:induction false} CdfIff(k: seq<Knot>, n: nat, i: nat, len: nat, c: nat)
    requires WellFormed(k, n) && i < |k| && Below(k, i).len < len <= k[i].len
    ensures Below(k, i).cum <= k[i].cum
    ensures c < Cdf(k, i, len) <==> c < Below(k, i).cum || !Reaches(Below(k, i), k[i], c, len)
  {
    hide CeilDiv, WellFormed;
    Order(k, n, i, i + 1);
    var b := Below(k, i);
    if c >= b.cum { CeilLess(c - b.cum, (len - b.len) * (k[i].cum - b.cum), k[i].len - b.len); }
  }

  /** A permuted rank gets a length of at most len exactly when it lies below the interval of len or the codes
  before it do not reach len. */
  lemma {:induction false} ShortIffFirst(k: seq<Knot>, n: nat, i: nat, len: nat, local: nat, got: nat)
    requires WellFormed(k, n) && i < |k| && Below(k, i).len < len <= k[i].len
    requires HasLen(k, local, got)
    ensures got <= len <==> local < Cdf(k, i, len)
    ensures var b := if i > 0 then k[i - 1] else Knot(0, 0);
            got <= len <==> local < b.cum || !Reaches(b, k[i], local, len)
  {
    var j: nat :| InInterval(k, j, local) && Below(k, j).len <= k[j].len && got == LenAt(k, j, local);
    hide WellFormed, LenAt, Cdf, HasLen, Reaches;
    LenInInterval(k, n, j, local);
    CdfBetween(k, n, i, len);
    CdfIff(k, n, i, len, local);
    if j < i { Order(k, n, j + 1, i); } else if i < j { Order(k, n, i + 1, j); }
  }

  /** The ranks sent below c are c many. */
  lemma {:induction false} PermutedCount(c: nat, m: nat, n: nat)
    requires c <= n && n > 0 && Gcd(m, n) == 1
    ensures |set r: nat | r < n && Permuted(r, m, n) < c| == c
    decreases c
  {
    var s := set r: nat | r < n && Permuted(r, m, n) < c;
    if c == 0 {
      assert s == {};
    } else {
      PermutedCount(c - 1, m, n);
      var t := set r: nat | r < n && Permuted(r, m, n) < c - 1;
      var p := Preimage(c - 1, m, n);
      forall r | r in s ensures r in t + {p} {
        if Permuted(r, m, n) == c - 1 { PermutedInjective(r, p, m, n); }
      }
      assert s == t + {p};
    }
  }

  /** The ranks of the remaining codes whose length is at most len. */
  ghost function Short(k: seq<Knot>, m: nat, n: nat, len: nat): set<nat>
    requires n > 0
  {
    set r: nat | r < n && exists got: nat :: HasLen(k, Permuted(r, m, n), got) && got <= len
  }

  /** c is the least number, not below the knot b, whose share of the lengths up to the next knot reaches
  len. */
  ghost predicate LeastShare(b: Knot, next: Knot, len: nat, c: nat) {
    && b.cum <= c
    && Reaches(b, next, c, len)
    && forall x: nat :: b.cum <= x < c ==> !Reaches(b, next, x, len)
  }

  /** The exact census: for every length the number of codes that are no longer is the table's linear
  interpolation, rounded up; at a knot it is the tabulated number. */
  lemma {:induction false} ExactCensus(k: seq<Knot>, m: nat, n: nat, i: nat, len: nat)
    requires WellFormed(k, n) && Gcd(m, n) == 1
    requires i < |k| && Below(k, i).len < len <= k[i].len
    ensures LeastShare(if i > 0 then k[i - 1] else Knot(0, 0), k[i], len, |Short(k, m, n, len)|)
    ensures len == k[i].len ==> |Short(k, m, n, len)| == k[i].cum
  {
    hide Cdf, Short, Reaches, WellFormed;
    CdfBetween(k, n, i, len);
    var c := Cdf(k, i, len);
    ShortCount(k, m, n, i, len);
    forall x: nat ensures x < c <==> x < Below(k, i).cum || !Reaches(Below(k, i), k[i], x, len) {
      CdfIff(k, n, i, len, x);
    }
  }

  lemma {:induction false} ShortCount(k: seq<Knot>, m: nat, n: nat, i: nat, len: nat)
    requires WellFormed(k, n) && Gcd(m, n) == 1
    requires i < |k| && Below(k, i).len < len <= k[i].len
    ensures Below(k, i).cum <= k[i].cum && |Short(k, m, n, len)| == Cdf(k, i, len)
  {
    CdfBetween(k, n, i, len);
    var c := Cdf(k, i, len);
    PermutedCount(c, m, n);
    forall r: nat | r < n ensures r in Short(k, m, n, len) <==> Permuted(r, m, n) < c {
      var local := Permuted(r, m, n);
      var had := SomeLen(k, n, local);
      ShortIffFirst(k, n, i, len, local, had);
      if r in Short(k, m, n, len) {
        var got: nat :| HasLen(k, local, got) && got <= len;
        ShortIffFirst(k, n, i, len, local, got);
      }
    }
    assert Short(k, m, n, len) == set r: nat | r < n && Permuted(r, m, n) < c;
  }

  lemma {:induction false} SomeLen(k: seq<Knot>, n: nat, local: nat) returns (len: nat)
    requires WellFormed(k, n) && local < n
    ensures HasLen(k, local, len)
  {
    var i: nat := 0;
    while k[i].cum <= local
      invariant i < |k| && Below(k, i).cum <= local
      decreases |k| - i
    {
      i := i + 1;
    }
    Order(k, n, i, i + 1);
    assert InInterval(k, i, local);
    len := LenAt(k, i, local);
  }

  /** A rank has one length. */
  lemma {:induction false} LenUnique(k: seq<Knot>, n: nat, local: nat, a: nat, b: nat)
    requires WellFormed(k, n) && HasLen(k, local, a) && HasLen(k, local, b)
    ensures a == b && 1 <= a <= k[|k| - 1].len
  {
    var i: nat :| InInterval(k, i, local) && Below(k, i).len <= k[i].len && a == LenAt(k, i, local);
    var j: nat :| InInterval(k, j, local) && Below(k, j).len <= k[j].len && b == LenAt(k, j, local);
    IntervalUnique(k, n, i, j, local);
    LenInInterval(k, n, i, local);
    Order(k, n, i + 1, |k|);
  }
}
