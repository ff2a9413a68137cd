/** Big-endian numbers in byte strings. */
module Endian {
  import opened Stems
  import opened Arithmetic

  function Pow256(k: nat): (p: nat)
    ensures p > 0
  {
    if k == 0 then 1 else 256 * Pow256(k - 1)
  }

  /** The last k base-256 digits of n, most significant first. */
  function Digits(n: nat, k: nat): (b: seq<Byte>)
    ensures |b| == k
    decreases k
  {
    if k == 0 then [] else Digits(n / 256, k - 1) + [n % 256]
  }

  /** Byte i of k counts multiples of 256^(k - 1 - i). */
  lemma {:induction false} DigitAt(n: nat, k: nat, i: nat)
    requires i < k
    ensures Digits(n, k)[i] == n / Pow256(k - 1 - i) % 256
    decreases k
  {
    if i < k - 1 {
      DigitAt(n / 256, k - 1, i);
      QuotientInSteps(n, 256, Pow256(k - 2 - i));
    }
  }

  function Value(b: seq<Byte>): nat
    decreases |b|
  {
    if b == [] then 0 else 256 * Value(b[..|b| - 1]) + b[|b| - 1]
  }

  /** Digits that are wide enough keep the number. */
  lemma {:induction false} DigitsValue(n: nat, k: nat)
    requires n < Pow256(k)
    ensures Value(Digits(n, k)) == n
    decreases k
  {
    if k > 0 {
      DigitsValue(n / 256, k - 1);
      assert Digits(n, k)[..k - 1] == Digits(n / 256, k - 1);
    }
  }

  lemma {:induction false} ValueBound(b: seq<Byte>)
    ensures Value(b) < Pow256(|b|)
    decreases |b|
  {
    if b != [] { ValueBound(b[..|b| - 1]); }
  }

  /** The digits of a byte string's value are the byte string. */
  lemma {:induction false} ValueDigits(b: seq<Byte>)
    ensures Digits(Value(b), |b|) == b
    decreases |b|
  {
    hide Digits;
    if b != [] {
      var init, d := b[..|b| - 1], b[|b| - 1];
      ValueDigits(init);
      DigitsSnoc(Value(init), d, |init|);
      assert b == init + [d];
    } else {
      NoDigits(0);
    }
  }

  lemma {:induction false} DigitsSnoc(n: nat, d: Byte, k: nat)
    ensures Digits(256 * n + d, k + 1) == Digits(n, k) + [d]
  {
    assert (256 * n + d) / 256 == n && (256 * n + d) % 256 == d;
  }

  lemma {:induction false} NoDigits(n: nat)
    ensures Digits(n, 0) == []
  {
  }

  /** Four bytes hold the low 32 bits, eight the low 64. */
  lemma {:induction false} DigitsFit(n: nat)
    ensures Value(Digits(n % TWO32, 4)) == n % TWO32
    ensures Value(Digits(n % TWO64, 8)) == n % TWO64
  {
    hide Digits, Value;
    Widths();
    DigitsValue(n % TWO32, 4);
    DigitsValue(n % TWO64, 8);
  }

  lemma {:induction false} ValuesFit(b: seq<Byte>)
    ensures |b| == 4 ==> Value(b) < TWO32
    ensures |b| == 8 ==> Value(b) < TWO64
  {
    hide Value, Pow256;
    Widths();
    ValueBound(b);
  }

  lemma {:induction false} Widths()
    ensures Pow256(4) == TWO32 && Pow256(8) == TWO64
  {
    assert Pow256(1) == 256 && Pow256(2) == 0x1_0000 && Pow256(3) == 0x100_0000;
    assert Pow256(4) == TWO32 && Pow256(5) == 0x100_0000_0000;
    assert Pow256(6) == 0x1_0000_0000_0000 && Pow256(7) == 0x100_0000_0000_0000;
  }

  lemma {:induction false} PowSum(a: nat, b: nat)
    ensures Pow256(a + b) == Pow256(a) * Pow256(b)
    decreases a
  {
    if a > 0 {
      PowSum(a - 1, b);
      assert a + b - 1 == a - 1 + b;
      MulAssociative(256, Pow256(a - 1), Pow256(b));
    }
  }

  lemma {:induction false} Width256(k: nat)
    requires k == 32
    ensures Pow256(k) == TWO256
  {
    Widths();
    hide Pow256;
    PowSum(8, 8);
    PowSum(16, 8);
    PowSum(24, 8);
  }

  /** The shortest big-endian form; zero has no bytes. */
  function Minimal(n: nat): (b: seq<Byte>)
    ensures Value(b) == n
    ensures b != [] ==> b[0] != 0
    decreases n
  {
    if n == 0 then [] else
      var b := Minimal(n / 256) + [n % 256];
      assert b[..|b| - 1] == Minimal(n / 256);
      b
  }

  lemma {:induction false} MinimalLength(n: nat, k: nat)
    requires n < Pow256(k)
    ensures |Minimal(n)| <= k
    decreases n
  {
    if n > 0 {
      assert k > 0;
      MinimalLength(n / 256, k - 1);
    }
  }

  /** Without a leading zero, a byte string is the shortest form of its value. */
  lemma {:induction false} MinimalIsUnique(b: seq<Byte>)
    requires b != [] ==> b[0] != 0
    ensures Minimal(Value(b)) == b
    decreases |b|
  {
    hide Minimal;
    if b != [] {
      var init, d := b[..|b| - 1], b[|b| - 1];
      MinimalIsUnique(init);
      if init != [] { ValuePositive(init); }
      assert b == init + [d];
      assert Value(b) == 256 * Value(init) + d;
      MinimalSnoc(Value(init), d);
    } else {
      MinimalSnoc(0, 0);
    }
  }

  lemma {:induction false} MinimalSnoc(n: nat, d: Byte)
    ensures Minimal(0) == []
    ensures 256 * n + d > 0 ==> Minimal(256 * n + d) == Minimal(n) + [d]
  {
    hide Value;
    assert (256 * n + d) / 256 == n && (256 * n + d) % 256 == d;
  }

  lemma {:induction false} ValuePositive(b: seq<Byte>)
    requires b != [] && b[0] != 0
    ensures Value(b) > 0
    decreases |b|
  {
    if |b| > 1 { ValuePositive(b[..|b| - 1]); }
  }
}
