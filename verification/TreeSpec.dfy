/** The recursive bit tree: the reference definition of the root hash and of the stored nodes.

EIP-7864 hashes an empty subtree to zero, a subtree holding one stem to that stem's hash, and any
other subtree to the hash of its two halves. In the grouped format a lone stem collapses only at
depths that are multiples of the group depth; group depth 0 is the ungrouped format. */
module TreeSpec {
  import opened Stems

  /** Hashes as free terms: `Pair` is SHA-256 of two concatenated hashes, `Leaf` of a 32-byte value,
  and `StemRoot` of a stem, a zero byte and a subtree hash. A term is never equal to `Zero` unless
  it is `Zero`, so an equation between terms holds for every hash function without a zero image. */
  datatype Hash = Zero | Leaf(value: seq<Byte>) | Pair(left: Hash, right: Hash) | StemRoot(stem: Path, inner: Hash)

  /** One present value of a stem: its suffix byte and its 32-byte value. */
  datatype Entry = Entry(suffix: Byte, value: seq<Byte>)

  /** A stem together with its node hash and its values. */
  datatype Item = Item(stem: Stem, hash: Hash, entries: seq<Entry>)

  /** Strictly ascending stems. */
  predicate Ascending(s: seq<Item>) {
    forall i, j :: 0 <= i < j < |s| ==> Before(s[i].stem, s[j].stem)
  }

  predicate NonZero(s: seq<Item>) {
    forall i :: 0 <= i < |s| ==> s[i].hash != Zero
  }

  /** A lone stem at depth d is represented by its own node. */
  predicate Collapses(d: nat, gd: nat) {
    gd == 0 || d % gd == 0
  }

  /** The items whose stem starts with path p. */
  function Under(s: seq<Item>, p: Path): (r: seq<Item>)
    ensures |r| <= |s|
  {
    if s == [] then [] else
      var last := s[|s| - 1];
      Under(s[..|s| - 1], p) + if p <= last.stem then [last] else []
  }

  /** Hash of the tree node at path p. */
  function Node(s: seq<Item>, p: Path, gd: nat): Hash
    decreases MAX_DEPTH - |p|, s
  {
    var u := Under(s, p);
    if u == [] then Zero
    else if (|u| == 1 && Collapses(|p|, gd)) || |p| >= MAX_DEPTH then u[0].hash
    else Pair(Node(s, p + [false], gd), Node(s, p + [true], gd))
  }

  /** Root of the tree over s. */
  function Root(s: seq<Item>, gd: nat): Hash {
    Node(s, [], gd)
  }

  lemma {:induction false} UnderSnoc(s: seq<Item>, x: Item, p: Path)
    ensures Under(s + [x], p) == Under(s, p) + if p <= x.stem then [x] else []
  {
    assert (s + [x])[..|s|] == s;
  }

  /** A longer path selects fewer items. */
  lemma {:induction false} UnderAntitone(s: seq<Item>, q: Path, p: Path)
    requires q <= p
    ensures |Under(s, p)| <= |Under(s, q)|
  {
    if s != [] {
      UnderAntitone(s[..|s| - 1], q, p);
      assert p <= s[|s| - 1].stem ==> q <= s[|s| - 1].stem;
    }
  }

  /** Items off the path leave a node's hash alone. */
  lemma {:induction false} NodeFrame(s: seq<Item>, x: Item, p: Path, gd: nat)
    requires !(p <= x.stem)
    ensures Under(s + [x], p) == Under(s, p)
    ensures Node(s + [x], p, gd) == Node(s, p, gd)
    decreases MAX_DEPTH - |p|
  {
    UnderSnoc(s, x, p);
    if |p| < MAX_DEPTH {
      assert p <= p + [false] && p <= p + [true];
      NodeFrame(s, x, p + [false], gd);
      NodeFrame(s, x, p + [true], gd);
    }
  }

  /** With non-zero stem hashes a node hashes to zero exactly when nothing is under it. */
  lemma {:induction false} NodeZero(s: seq<Item>, p: Path, gd: nat)
    requires NonZero(s)
    ensures Node(s, p, gd) == Zero <==> Under(s, p) == []
  {
    UnderNonZero(s, p);
  }

  lemma {:induction false} UnderNonZero(s: seq<Item>, p: Path)
    requires NonZero(s)
    ensures NonZero(Under(s, p))
  {
    if s != [] { UnderNonZero(s[..|s| - 1], p); }
  }

  /** Under selects items of s, all of them starting with p. */
  lemma {:induction false} UnderSelects(s: seq<Item>, p: Path)
    ensures forall i :: 0 <= i < |Under(s, p)| ==> Under(s, p)[i] in s && p <= Under(s, p)[i].stem
  {
    if s != [] { UnderSelects(s[..|s| - 1], p); }
  }

  /** Under keeps every item that starts with p. */
  lemma {:induction false} UnderKeeps(s: seq<Item>, p: Path, i: nat)
    requires i < |s| && p <= s[i].stem
    ensures s[i] in Under(s, p)
  {
    if i < |s| - 1 { UnderKeeps(s[..|s| - 1], p, i); }
  }

  lemma {:induction false} NoneUnder(s: seq<Item>, p: Path)
    requires forall i :: 0 <= i < |s| ==> !(p <= s[i].stem)
    ensures Under(s, p) == []
  {
    if s != [] { NoneUnder(s[..|s| - 1], p); }
  }

  /** A node that does not collapse is the pair of its children. */
  lemma {:induction false} NodeSplits(s: seq<Item>, p: Path, gd: nat)
    requires |p| < MAX_DEPTH && Under(s, p) != []
    requires |Under(s, p)| >= 2 || !Collapses(|p|, gd)
    ensures Node(s, p, gd) == Pair(Node(s, p + [false], gd), Node(s, p + [true], gd))
  {
  }

  lemma {:induction false} RightIsAfter(x: Stem, l: Stem, d: nat)
    requires d < MAX_DEPTH && !l[d] && l[..d] + [true] <= x
    ensures Before(l, x)
  {
    var p := l[..d] + [true];
    assert x[..d] == p[..d] && x[d] == p[d];
    FirstDifference(l, x, d);
  }

  lemma {:induction false} NotBothBefore(a: Stem, b: Stem)
    requires Before(a, b)
    ensures !Before(b, a) && a != b
  {
    CommonPrefixFacts(a, b);
    FirstDifference(b, a, CommonPrefixLen(a, b));
  }

  lemma {:induction false} NotRightOf(x: Stem, l: Stem, d: nat)
    requires d < MAX_DEPTH && !l[d] && (x == l || Before(x, l))
    ensures !(l[..d] + [true] <= x)
  {
    if l[..d] + [true] <= x {
      RightIsAfter(x, l, d);
      NotBothBefore(l, x);
    }
  }

  lemma {:induction false} NotSharing(x: Stem, l: Stem, n: Stem, d: nat)
    requires CommonPrefixLen(l, n) < d <= MAX_DEPTH
    requires Before(l, n) && (x == l || Before(x, l))
    ensures !(n[..d] <= x)
  {
    AgreeIffCommonPrefix(x, n, d);
    if x != l { MiddleIsCloser(x, l, n); }
  }

  /** Nothing in an ascending list lies to the right of its last stem. */
  lemma {:induction false} NothingRight(s: seq<Item>, d: nat)
    requires s != [] && Ascending(s) && d < MAX_DEPTH && !s[|s| - 1].stem[d]
    ensures Under(s, s[|s| - 1].stem[..d] + [true]) == []
  {
    var l := s[|s| - 1].stem;
    var p := l[..d] + [true];
    forall i | 0 <= i < |s| ensures !(p <= s[i].stem) {
      NotRightOf(s[i].stem, l, d);
    }
    NoneUnder(s, p);
  }

  /** In an ascending list, some earlier stem shares d bits with a new last stem n exactly when the
  previous last stem does. */
  lemma {:induction false} NeighbourIsClosest(s: seq<Item>, n: Stem, d: nat)
    requires s != [] && Ascending(s) && Before(s[|s| - 1].stem, n) && d <= MAX_DEPTH
    ensures Under(s, n[..d]) == [] <==> d > CommonPrefixLen(s[|s| - 1].stem, n)
  {
    var l := s[|s| - 1].stem;
    if d <= CommonPrefixLen(l, n) {
      AgreeIffCommonPrefix(l, n, d);
      UnderKeeps(s, n[..d], |s| - 1);
    } else {
      forall i | 0 <= i < |s| ensures !(n[..d] <= s[i].stem) {
          NotSharing(s[i].stem, l, n, d);
      }
      NoneUnder(s, n[..d]);
    }
  }
}
