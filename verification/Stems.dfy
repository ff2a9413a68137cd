/** Bit paths and stems: the addresses of the binary trie.

A stem is 31 bytes, read most significant bit first, so it is a path of 248 bits.
A database path has one bit per tree level (false = left, true = right). */
module Stems {

  /** Depth of the trie: 31 bytes of 8 bits. */
  const MAX_DEPTH: nat := 248

  type Byte = b: nat | b < 256

  type Path = seq<bool>

  type Stem = s: Path | |s| == MAX_DEPTH witness seq(MAX_DEPTH, _ => false)

  /** Number of leading bits two stems share, given that they share the first i. */
  function CommonPrefixFrom(a: Stem, b: Stem, i: nat): (k: nat)
    requires i <= MAX_DEPTH
    ensures i <= k <= MAX_DEPTH
    decreases |a| - i
  {
    if i == MAX_DEPTH || a[i] != b[i] then i else CommonPrefixFrom(a, b, i + 1)
  }

  /** Number of leading bits two stems share. */
  function CommonPrefixLen(a: Stem, b: Stem): (k: nat)
    ensures k <= MAX_DEPTH
  {
    CommonPrefixFrom(a, b, 0)
  }

  lemma {:induction false} CommonPrefixFromFacts(a: Stem, b: Stem, i: nat)
    requires i <= MAX_DEPTH
    ensures var k := CommonPrefixFrom(a, b, i);
            (forall j :: i <= j < k ==> a[j] == b[j]) && (k < MAX_DEPTH ==> a[k] != b[k])
    decreases MAX_DEPTH - i
  {
    if i < MAX_DEPTH && a[i] == b[i] { CommonPrefixFromFacts(a, b, i + 1); }
  }

  /** Two stems agree on their common prefix and differ right after it. */
  lemma {:induction false} CommonPrefixFacts(a: Stem, b: Stem)
    ensures var k := CommonPrefixLen(a, b);
            a[..k] == b[..k] && (k < MAX_DEPTH ==> a[k] != b[k])
  {
    CommonPrefixFromFacts(a, b, 0);
  }

  /** Strict lexicographic order of stems: at the first differing bit, a goes left. */
  predicate Before(a: Stem, b: Stem) {
    var k := CommonPrefixLen(a, b);
    k < MAX_DEPTH && !a[k] && b[k]
  }

  /** Agreement on d bits is the same as a common prefix of at least d bits. */
  lemma {:induction false} AgreeIffCommonPrefix(a: Stem, b: Stem, d: nat)
    requires d <= MAX_DEPTH
    ensures a[..d] == b[..d] <==> d <= CommonPrefixLen(a, b)
  {
    var k := CommonPrefixLen(a, b);
    CommonPrefixFacts(a, b);
    if d <= k {
      assert a[..d] == a[..k][..d] && b[..d] == b[..k][..d];
    } else {
      assert a[..d][k] == a[k] && b[..d][k] == b[k];
    }
  }

  /** The first difference decides the common prefix length. */
  lemma {:induction false} FirstDifference(a: Stem, b: Stem, m: nat)
    requires m < MAX_DEPTH && a[..m] == b[..m] && a[m] != b[m]
    ensures CommonPrefixLen(a, b) == m
  {
    AgreeIffCommonPrefix(a, b, m);
    CommonPrefixFacts(a, b);
    if m < CommonPrefixLen(a, b) { AgreeIffCommonPrefix(a, b, m + 1); }
  }

  /** For x before l before n, x is no closer to n than l is. */
  lemma {:induction false} MiddleIsCloser(x: Stem, l: Stem, n: Stem)
    requires Before(x, l) && Before(l, n)
    ensures Before(x, n)
    ensures CommonPrefixLen(x, n) <= CommonPrefixLen(l, n)
    ensures CommonPrefixLen(x, n) <= CommonPrefixLen(x, l)
  {
    var i, j := CommonPrefixLen(x, l), CommonPrefixLen(l, n);
    var m := if i < j then i else j;
    CommonPrefixFacts(x, l);
    CommonPrefixFacts(l, n);
    AgreeIffCommonPrefix(x, l, m);
    AgreeIffCommonPrefix(l, n, m);
    assert x[..m] == n[..m];
    assert m == i ==> (m < j ==> n[..j][m] == l[..j][m]);
    assert m == j ==> (m < i ==> x[..i][m] == l[..i][m]);
    FirstDifference(x, n, m);
  }

  /** A path of d bits of a stem, extended by one bit. */
  lemma {:induction false} TakeSnoc(l: Stem, d: nat)
    requires d < MAX_DEPTH
    ensures l[..d + 1] == l[..d] + [l[d]]
  {
  }
}
