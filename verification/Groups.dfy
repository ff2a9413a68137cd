/** Groups of gd tree levels: boundary depths, child slots and the hash a reader recomputes. */
module Groups {
  import opened Stems
  import opened TreeSpec
  import opened Arithmetic

  function Pow2(k: nat): (r: nat)
    ensures r >= 1
  {
    if k == 0 then 1 else 2 * Pow2(k - 1)
  }

  /** The number whose binary digits, most significant first, are p. */
  function SlotOf(p: Path): nat {
    if p == [] then 0 else 2 * SlotOf(p[..|p| - 1]) + if p[|p| - 1] then 1 else 0
  }

  /** The k low binary digits of t, most significant first. */
  function ToBits(t: nat, k: nat): (p: Path)
    ensures |p| == k
    decreases k, t
  {
    if k == 0 then [] else ToBits(t / 2, k - 1) + [t % 2 == 1]
  }

  lemma {:induction false} SlotOfToBits(t: nat, k: nat)
    requires t < Pow2(k)
    ensures SlotOf(ToBits(t, k)) == t
  {
    if k > 0 {
      SlotOfToBits(t / 2, k - 1);
      assert ToBits(t, k)[..k - 1] == ToBits(t / 2, k - 1);
    }
  }

  lemma {:induction false} ToBitsSlotOf(p: Path)
    ensures SlotOf(p) < Pow2(|p|)
    ensures ToBits(SlotOf(p), |p|) == p
  {
    if p != [] {
      ToBitsSlotOf(p[..|p| - 1]);
      assert p == p[..|p| - 1] + [p[|p| - 1]];
    }
  }

  lemma {:induction false} ToBitsDouble(i: nat, k: nat)
    ensures ToBits(2 * i, k + 1) == ToBits(i, k) + [false]
    ensures ToBits(2 * i + 1, k + 1) == ToBits(i, k) + [true]
  {
    assert 2 * i / 2 == i && 2 * i % 2 == 0;
    assert (2 * i + 1) / 2 == i && (2 * i + 1) % 2 == 1;
    ToBitsUnfold(2 * i, k);
    ToBitsUnfold(2 * i + 1, k);
  }

  /** Digit j from the right is the remainder by two of the quotient by 2^j. */
  lemma {:induction false} ToBitsAt(t: nat, k: nat, j: nat)
    requires j < k
    ensures ToBits(t, k)[k - 1 - j] <==> t / Pow2(j) % 2 == 1
    decreases j
  {
    ToBitsUnfold(t, k - 1);
    if j > 0 {
      ToBitsAt(t / 2, k - 1, j - 1);
      QuotientInSteps(t, 2, Pow2(j - 1));
    }
  }

  lemma {:induction false} ToBitsUnfold(t: nat, k: nat)
    ensures ToBits(t, k + 1) == ToBits(t / 2, k) + [t % 2 == 1]
  {
  }

  /** Path of the child in slot t of the group at p. */
  function Child(p: Path, t: nat, gd: nat): (q: Path)
    ensures |q| == |p| + gd
  {
    p + ToBits(t, gd)
  }

  /** Slot, in the group at depth b on the path of stem l, that leads towards l. */
  function SlotAt(l: Stem, b: nat, gd: nat): nat
    requires b + gd <= MAX_DEPTH
  {
    SlotOf(l[b..b + gd])
  }

  /** Exactly one slot of a group on the path of l leads to l. */
  lemma {:induction false} ChildOnPath(l: Stem, b: nat, t: nat, gd: nat)
    requires b + gd <= MAX_DEPTH && t < Pow2(gd)
    ensures SlotAt(l, b, gd) < Pow2(gd)
    ensures Child(l[..b], SlotAt(l, b, gd), gd) == l[..b + gd]
    ensures Child(l[..b], t, gd) <= l <==> t == SlotAt(l, b, gd)
  {
    ToBitsSlotOf(l[b..b + gd]);
    assert l[..b] + l[b..b + gd] == l[..b + gd];
    var q := Child(l[..b], t, gd);
    if q <= l {
      assert q == l[..b + gd];
      assert ToBits(t, gd) == q[b..];
      SlotOfToBits(t, gd);
    }
  }

  // ----- boundary depths

  lemma {:induction false} ModUnique(d: nat, gd: nat, k: nat, r: nat)
    requires gd > 0 && d == k * gd + r && r < gd
    ensures d % gd == r && d / gd == k
  {
    assert d == (d / gd) * gd + d % gd;
    var x := d / gd - k;
    assert x * gd == r - d % gd;
    MultipleBounds(x, gd);
  }

  lemma {:induction false} MultipleBounds(x: int, gd: int)
    requires gd > 0
    ensures x >= 1 ==> x * gd >= gd
    ensures x <= -1 ==> x * gd <= -gd
  {
  }

  /** Stepping by gd keeps a depth on a boundary. */
  lemma {:induction false} BoundaryStep(b: nat, gd: nat)
    requires gd > 0 && b % gd == 0
    ensures (b + gd) % gd == 0
    ensures b >= gd ==> (b - gd) % gd == 0
  {
    var k := b / gd;
    assert b == k * gd;
    assert b + gd == (k + 1) * gd;
    ModUnique(b + gd, gd, k + 1, 0);
    if b >= gd {
      assert b - gd == (k - 1) * gd;
      assert k >= 1;
      ModUnique(b - gd, gd, k - 1, 0);
    }
  }

  /** No boundary lies strictly between a boundary and the next one. */
  lemma {:induction false} NoBoundaryInside(b: nat, d: nat, gd: nat)
    requires gd > 0 && b % gd == 0 && b < d < b + gd
    ensures d % gd != 0
  {
    assert b == b / gd * gd;
    ModUnique(d, gd, b / gd, d - b);
  }

  /** Distinct boundaries are at least gd apart. */
  lemma {:induction false} BoundariesApart(b: nat, d: nat, gd: nat)
    requires gd > 0 && b % gd == 0 && d % gd == 0 && b < d
    ensures b + gd <= d
  {
    if d < b + gd { NoBoundaryInside(b, d, gd); }
  }

  /** A depth reached by stepping up from a boundary by gd; negative once past the root. */
  ghost predicate StepDepth(b: int, gd: nat) {
    gd > 0 && b + gd >= 0 && (b + gd) % gd == 0
  }

  lemma {:induction false} StepDepthUp(b: nat, gd: nat)
    requires StepDepth(b, gd)
    ensures b % gd == 0 && StepDepth(b - gd, gd) && (b > 0 ==> b >= gd)
  {
    BoundaryStep(b + gd, gd);
    if b > 0 {
      ModUnique(0, gd, 0, 0);
      BoundariesApart(0, b, gd);
    }
  }

  /** The last boundary at or above depth d. */
  function BoundaryOf(d: nat, gd: nat): (b: nat)
    requires gd > 0
    ensures b <= d < b + gd && b % gd == 0
  {
    var b := d / gd * gd;
    assert b == (d / gd) * gd && d == b + d % gd;
    ModUnique(b, gd, d / gd, 0);
    b
  }

  /** Depth at which a stem first alone at depth m is stored: m itself, or, in grouped mode, the
  first boundary at or below it. */
  function TargetDepth(m: nat, gd: nat): (t: nat)
    ensures m <= t && Collapses(t, gd)
    ensures forall d :: m <= d < t ==> !Collapses(d, gd)
  {
    if gd == 0 then m else
      var b := BoundaryOf(m, gd);
      BoundaryStep(b, gd);
      assert forall d :: b < d < b + gd ==> !Collapses(d, gd) by {
        forall d | b < d < b + gd ensures !Collapses(d, gd) { NoBoundaryInside(b, d, gd); }
      }
      if m > b then b + gd else m
  }

  /** A deeper depth extends to no shallower boundary. */
  lemma {:induction false} TargetMonotone(m: nat, n: nat, gd: nat)
    requires m <= n
    ensures TargetDepth(m, gd) <= TargetDepth(n, gd)
  {
  }

  // ----- children of a group

  /** All non-empty children of the group at p, by slot. */
  ghost function FullSlots(s: seq<Item>, p: Path, gd: nat): map<nat, Hash> {
    map t: nat | t < Pow2(gd) && Under(s, Child(p, t, gd)) != [] :: Node(s, Child(p, t, gd), gd)
  }

  /** The hash a reader computes for the subtree of the given height whose leftmost leaf is slot
  i * 2^height: two empty halves are empty, anything else is a pair. */
  function ReaderHash(m: map<nat, Hash>, height: nat, i: nat): Hash
    decreases height, |m|
  {
    if height == 0 then (if i in m then m[i] else Zero)
    else PairOrEmpty(ReaderHash(m, height - 1, 2 * i), ReaderHash(m, height - 1, 2 * i + 1))
  }

  function PairOrEmpty(l: Hash, r: Hash): Hash {
    if l == Zero && r == Zero then Zero else Pair(l, r)
  }

  /** Inside a group the reader's hash of a partial subtree is the tree's hash of that node. */
  lemma {:induction false} ReaderHashInside(s: seq<Item>, p: Path, gd: nat, height: nat, i: nat)
    requires gd > 0 && |p| % gd == 0 && |p| + gd <= MAX_DEPTH && NonZero(s)
    requires height < gd && i < Pow2(gd - height)
    ensures ReaderHash(FullSlots(s, p, gd), height, i) == Node(s, p + ToBits(i, gd - height), gd)
    decreases height
  {
    var q := p + ToBits(i, gd - height);
    if height == 0 {
      assert q == Child(p, i, gd);
      NodeZero(s, q, gd);
    } else {
      ReaderHalves(s, p, gd, height, i);
      NoBoundaryInside(|p|, |q|, gd);
      NodePairOrEmpty(s, q, gd);
    }
  }

  lemma {:induction false} ReaderHalves(s: seq<Item>, p: Path, gd: nat, height: nat, i: nat)
    requires gd > 0 && |p| % gd == 0 && |p| + gd <= MAX_DEPTH && NonZero(s)
    requires 0 < height <= gd && i < Pow2(gd - height)
    ensures var q := p + ToBits(i, gd - height);
            ReaderHash(FullSlots(s, p, gd), height, i) ==
            PairOrEmpty(Node(s, q + [false], gd), Node(s, q + [true], gd))
    decreases height, 0
  {
    hide TreeSpec.Node, TreeSpec.Under, FullSlots;
    var q := p + ToBits(i, gd - height);
    ReaderHashInside(s, p, gd, height - 1, 2 * i);
    ReaderHashInside(s, p, gd, height - 1, 2 * i + 1);
    ToBitsDouble(i, gd - height);
    assert p + ToBits(2 * i, gd - height + 1) == q + [false];
    assert p + ToBits(2 * i + 1, gd - height + 1) == q + [true];
  }

  lemma {:induction false} NodePairOrEmpty(s: seq<Item>, q: Path, gd: nat)
    requires NonZero(s) && |q| < MAX_DEPTH
    requires |Under(s, q)| != 1 || !Collapses(|q|, gd)
    ensures Node(s, q, gd) == PairOrEmpty(Node(s, q + [false], gd), Node(s, q + [true], gd))
  {
    NodeZero(s, q + [false], gd);
    NodeZero(s, q + [true], gd);
    UnderSplits(s, q);
  }

  /** The items under q, counted by the next bit. */
  lemma {:induction false} UnderSplits(s: seq<Item>, q: Path)
    requires |q| < MAX_DEPTH
    ensures |Under(s, q)| == |Under(s, q + [false])| + |Under(s, q + [true])|
  {
    if s != [] {
      UnderSplits(s[..|s| - 1], q);
      var x := s[|s| - 1].stem;
      assert q <= x ==> (if x[|q|] then q + [true] else q + [false]) <= x;
      assert (q + [false])[|q|] == false && (q + [true])[|q|] == true;
      assert q <= q + [false] && q <= q + [true];
    }
  }

  /** What a reader recomputes from a complete group is the tree's hash of the group's node. */
  lemma {:induction false} ReaderHashIsNode(s: seq<Item>, p: Path, gd: nat)
    requires gd > 0 && |p| % gd == 0 && |p| + gd <= MAX_DEPTH && NonZero(s)
    requires |Under(s, p)| >= 2
    ensures ReaderHash(FullSlots(s, p, gd), gd, 0) == Node(s, p, gd)
  {
    ReaderHalves(s, p, gd, gd, 0);
    assert p + ToBits(0, 0) == p;
    NodePairOrEmpty(s, p, gd);
  }
}
