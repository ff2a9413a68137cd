/** Stems as 31 bytes: common prefixes found byte by byte, and the byte order of the database. */
module StemBytes {
  import opened Stems
  import opened TreeSpec
  import opened Groups
  import opened NodeCodec

  /** Bitwise exclusive or of two bytes. */
  function Xor(a: Byte, b: Byte): Byte {
    var bits := seq(8, k requires 0 <= k < 8 => BitOf(a, k) != BitOf(b, k));
    ToBitsSlotOf(bits);
    assert Pow2(8) == 256;
    SlotOf(bits)
  }

  lemma {:induction false} XorBit(a: Byte, b: Byte, k: nat)
    requires k < 8
    ensures BitOf(Xor(a, b), k) == (BitOf(a, k) != BitOf(b, k))
  {
    var bits := seq(8, k requires 0 <= k < 8 => BitOf(a, k) != BitOf(b, k));
    ToBitsSlotOf(bits);
  }

  /** Leading zero bits of a byte from bit k on. */
  function LeadingZerosFrom(x: Byte, k: nat): (n: nat)
    requires k <= 8
    ensures k <= n <= 8
    decreases 8 - k, x
  {
    if k == 8 || BitOf(x, k) then k else LeadingZerosFrom(x, k + 1)
  }

  function LeadingZeros8(x: Byte): nat {
    LeadingZerosFrom(x, 0)
  }

  lemma {:induction false} LeadingZerosFacts(x: Byte, k: nat)
    requires k <= 8
    ensures forall j :: k <= j < LeadingZerosFrom(x, k) ==> !BitOf(x, j)
    ensures LeadingZerosFrom(x, k) < 8 ==> BitOf(x, LeadingZerosFrom(x, k))
    decreases 8 - k
  {
    if k < 8 && !BitOf(x, k) { LeadingZerosFacts(x, k + 1); }
  }

  /** Bytes with equal bits are equal. */
  lemma {:induction false} EqualBits(a: Byte, b: Byte)
    requires forall k :: 0 <= k < 8 ==> BitOf(a, k) == BitOf(b, k)
    ensures a == b
  {
    forall k | 0 <= k < 8 ensures ToBits(a, 8)[k] == ToBits(b, 8)[k] { assert BitOf(a, k) == BitOf(b, k); }
    assert ToBits(a, 8) == ToBits(b, 8);
    assert Pow2(8) == 256;
    SlotOfToBits(a, 8);
    SlotOfToBits(b, 8);
  }

  /** The first differing byte and the leading zeros of its difference give the first differing bit. */
  lemma {:induction false} FirstDifferentByte(a: seq<Byte>, b: seq<Byte>, i: nat)
    requires |a| == |b| == STEM_SIZE && i < STEM_SIZE && a[..i] == b[..i] && Xor(a[i], b[i]) != 0
    ensures LeadingZeros8(Xor(a[i], b[i])) < 8
    ensures CommonPrefixLen(StemOfBytes(a), StemOfBytes(b)) == i * 8 + LeadingZeros8(Xor(a[i], b[i]))
  {
    hide BitOf, Xor;
    var x, n := Xor(a[i], b[i]), LeadingZeros8(Xor(a[i], b[i]));
    LeadingZerosFacts(x, 0);
    if n == 8 {
      forall k | 0 <= k < 8 ensures BitOf(x, k) == BitOf(0, k) { ZeroByte(k); }
      EqualBits(x, 0);
    }
    assert n < 8;
    var s, t, m := StemOfBytes(a), StemOfBytes(b), i * 8 + n;
    forall d | 0 <= d < m ensures s[d] == t[d] {
      if d / 8 == i { XorBit(a[i], b[i], d % 8); } else { assert a[d / 8] == a[..i][d / 8]; }
    }
    XorBit(a[i], b[i], n);
    assert m / 8 == i && m % 8 == n;
    assert s[..m] == t[..m];
    FirstDifference(s, t, m);
  }

  /** Number of leading bits two 31-byte stems share. */
  method CommonPrefixLenBits(a: seq<Byte>, b: seq<Byte>) returns (n: nat)
    requires |a| == |b| == STEM_SIZE
    ensures n == CommonPrefixLen(StemOfBytes(a), StemOfBytes(b))
  {
    for i := 0 to STEM_SIZE
      invariant a[..i] == b[..i]
    {
      var xor := Xor(a[i], b[i]);
      if xor != 0 {
        FirstDifferentByte(a, b, i);
        return i * 8 + LeadingZeros8(xor);
      }
      ZeroXor(a[i], b[i]);
      assert a[..i + 1] == a[..i] + [a[i]] && b[..i + 1] == b[..i] + [b[i]];
    }
    assert a == b;
    AgreeIffCommonPrefix(StemOfBytes(a), StemOfBytes(b), MAX_DEPTH);
    n := MAX_DEPTH;
  }

  lemma {:induction false} ZeroXor(a: Byte, b: Byte)
    requires Xor(a, b) == 0
    ensures a == b
  {
    hide BitOf, Xor;
    forall k | 0 <= k < 8 ensures BitOf(a, k) == BitOf(b, k) {
      XorBit(a, b, k);
      ZeroByte(k);
    }
    EqualBits(a, b);
  }

  // ----- byte order

  /** Lexicographic order of byte strings of equal length. */
  ghost predicate BytesBefore(a: seq<Byte>, b: seq<Byte>) {
    exists i: nat :: i < |a| && i < |b| && a[..i] == b[..i] && a[i] < b[i]
  }

  /** At the first differing bit the smaller number has a zero. */
  lemma {:induction false} SmallerHasZero(p: Path, q: Path, k: nat)
    requires |p| == |q| && k < |p| && p[..k] == q[..k] && !p[k] && q[k]
    ensures SlotOf(p) < SlotOf(q)
    decreases |p|
  {
    if k < |p| - 1 {
      assert p[..|p| - 1][..k] == p[..k] && q[..|q| - 1][..k] == q[..k];
      SmallerHasZero(p[..|p| - 1], q[..|q| - 1], k);
    } else {
      assert p[..|p| - 1] == q[..|q| - 1];
    }
  }

  /** The order in which the database yields keys is the order of the bit paths. */
  lemma {:induction false} ByteOrderIsBitOrder(a: seq<Byte>, b: seq<Byte>)
    requires |a| == |b| == STEM_SIZE
    ensures BytesBefore(a, b) <==> Before(StemOfBytes(a), StemOfBytes(b))
  {
    hide BitOf, Stems.CommonPrefixLen;
    var s, t := StemOfBytes(a), StemOfBytes(b);
    if BytesBefore(a, b) {
      var i: nat :| i < |a| && i < |b| && a[..i] == b[..i] && a[i] < b[i];
      ByteDecides(a, b, i);
    }
    if Before(s, t) {
      var c := CommonPrefixLen(s, t);
      var i := FirstByteOf(a, b, c);
      ByteDecides(a, b, i);
      if b[i] < a[i] { ByteDecides(b, a, i); NotBothBefore(s, t); }
      assert a[i] < b[i];
    }
  }

  lemma {:induction false} FirstByteOf(a: seq<Byte>, b: seq<Byte>, c: nat) returns (i: nat)
    requires |a| == |b| == STEM_SIZE && c == CommonPrefixLen(StemOfBytes(a), StemOfBytes(b)) < MAX_DEPTH
    ensures i < STEM_SIZE && a[..i] == b[..i] && a[i] != b[i]
  {
    hide BitOf;
    var s, t := StemOfBytes(a), StemOfBytes(b);
    CommonPrefixFacts(s, t);
    i := c / 8;
    forall j | 0 <= j < i ensures a[j] == b[j] {
      forall k | 0 <= k < 8 ensures BitOf(a[j], k) == BitOf(b[j], k) {
        var d := j * 8 + k;
        assert d / 8 == j && d % 8 == k && s[..c][d] == t[..c][d];
      }
      EqualBits(a[j], b[j]);
    }
    assert s[c] == BitOf(a[i], c % 8) && t[c] == BitOf(b[i], c % 8);
  }

  lemma {:induction false} ByteDecides(a: seq<Byte>, b: seq<Byte>, i: nat)
    requires |a| == |b| == STEM_SIZE && i < STEM_SIZE && a[..i] == b[..i] && a[i] != b[i]
    ensures a[i] < b[i] ==> Before(StemOfBytes(a), StemOfBytes(b))
    ensures b[i] < a[i] ==> Before(StemOfBytes(b), StemOfBytes(a))
  {
    hide Xor;
    if Xor(a[i], b[i]) == 0 { ZeroXor(a[i], b[i]); }
    FirstDifferentByte(a, b, i);
    var s, t, c := StemOfBytes(a), StemOfBytes(b), CommonPrefixLen(StemOfBytes(a), StemOfBytes(b));
    CommonPrefixFacts(s, t);
    FirstDifference(t, s, c);
    var k := c % 8;
    assert c / 8 == i;
    ByteSplits(a, b, i, k);
  }

  lemma {:induction false} ByteSplits(a: seq<Byte>, b: seq<Byte>, i: nat, k: nat)
    requires |a| == |b| == STEM_SIZE && i < STEM_SIZE && k < 8
    requires var s, t := StemOfBytes(a), StemOfBytes(b);
             s[..i * 8 + k] == t[..i * 8 + k] && s[i * 8 + k] != t[i * 8 + k]
    ensures a[i] < b[i] <==> !BitOf(a[i], k)
    ensures BitOf(a[i], k) == StemOfBytes(a)[i * 8 + k] && BitOf(b[i], k) == StemOfBytes(b)[i * 8 + k]
  {
    hide NodeCodec.StemOfBytes;
    var s, t, m := StemOfBytes(a), StemOfBytes(b), i * 8 + k;
    StemBit(a, i, k);
    StemBit(b, i, k);
    forall j: nat | j < k ensures BitOf(a[i], j) == BitOf(b[i], j) {
      StemBit(a, i, j);
      StemBit(b, i, j);
      assert s[..m][i * 8 + j] == t[..m][i * 8 + j];
    }
    ByteCompare(a[i], b[i], k);
  }

  lemma {:induction false} StemBit(a: seq<Byte>, i: nat, k: nat)
    requires |a| == STEM_SIZE && i < STEM_SIZE && k < 8
    ensures StemOfBytes(a)[i * 8 + k] == BitOf(a[i], k)
  {
    hide BitOf;
    assert (i * 8 + k) / 8 == i && (i * 8 + k) % 8 == k;
  }

  lemma {:induction false} ByteCompare(x: Byte, y: Byte, k: nat)
    requires k < 8 && (forall j: nat :: j < k ==> BitOf(x, j) == BitOf(y, j)) && BitOf(x, k) != BitOf(y, k)
    ensures x < y <==> !BitOf(x, k)
  {
    var p, q := ToBits(x, 8), ToBits(y, 8);
    forall j: nat | j < k ensures p[j] == q[j] { assert BitOf(x, j) == BitOf(y, j); }
    assert p[..k] == q[..k];
    assert Pow2(8) == 256;
    SlotOfToBits(x, 8);
    SlotOfToBits(y, 8);
    if p[k] { SmallerHasZero(q, p, k); } else { SmallerHasZero(p, q, k); }
  }
}
