/** Reading the finished store: following a stem's bits from the root, and recomputing hashes. */
module TrieReader {
  import opened Wrappers
  import opened Stems
  import opened TreeSpec
  import opened Groups
  import opened BuilderSpec
  import opened BuilderSteps
  import opened StemHash

  /** Follows the bits of stem from depth d: a stem node ends the walk, an internal or group node is
  left through the child the bits select, if present. */
  function Lookup(store: Store, stem: Stem, d: nat): Option<seq<Entry>>
    requires d <= MAX_DEPTH
    decreases MAX_DEPTH - d
  {
    if stem[..d] !in store then None
    else match store[stem[..d]]
      case StemNode(s, entries) => if s == stem then Some(entries) else None
      case InternalNode(left, right) =>
        if d == MAX_DEPTH || (if stem[d] then right else left) == Zero then None
        else Lookup(store, stem, d + 1)
      case GroupNode(gd, children) =>
        if gd == 0 || d + gd > MAX_DEPTH || LeafAt(children, SlotAt(stem, d, gd)) == Zero then None
        else Lookup(store, stem, d + gd)
  }

  /** What the fed items say about a stem. */
  function Find(s: seq<Item>, stem: Stem): Option<seq<Entry>> {
    if s == [] then None
    else if s[|s| - 1].stem == stem then Some(s[|s| - 1].entries)
    else Find(s[..|s| - 1], stem)
  }

  /** Hash of a stored node, recomputed from its contents. */
  function NodeHash(node: TrieNode): Hash {
    match node
    case StemNode(stem, entries) => StemNodeHash(stem, entries)
    case InternalNode(left, right) => Pair(left, right)
    case GroupNode(gd, children) => ReaderHash(ChildMap(children), gd, 0)
  }

  function ChildMap(cs: seq<GroupChild>): map<nat, Hash> {
    if cs == [] then map[] else ChildMap(cs[..|cs| - 1])[cs[|cs| - 1].slot := cs[|cs| - 1].hash]
  }

  lemma {:induction false} ChildMapOfList(m: map<nat, Hash>, n: nat)
    ensures ChildMap(ChildList(m, n)) == map t | t in m && t < n :: m[t]
  {
    if n > 0 {
      ChildMapOfList(m, n - 1);
      var c := ChildList(m, n - 1);
      assert n - 1 !in m ==> ChildList(m, n) == c;
      assert n - 1 in m ==> ChildList(m, n)[..|c|] == c;
    }
  }

  /** Each item carries the hash of its own entries. */
  ghost predicate WellHashed(s: seq<Item>) {
    forall i :: 0 <= i < |s| ==> s[i].hash == StemNodeHash(s[i].stem, s[i].entries)
  }

  // ----- hash chain

  lemma {:induction false} UnderWellHashed(s: seq<Item>, p: Path)
    requires WellHashed(s)
    ensures WellHashed(Under(s, p))
  {
    if s != [] { UnderWellHashed(s[..|s| - 1], p); }
  }

  lemma {:induction false} WellHashedNonZero(s: seq<Item>)
    requires WellHashed(s)
    ensures NonZero(s)
  {
  }

  /** The hash recomputed from the node stored at p is the tree's hash of p. */
  lemma {:induction false} RecomputedHash(s: seq<Item>, p: Path, gd: nat)
    requires Ascending(s) && Fits(s, gd) && WellHashed(s) && Stored(s, p, gd)
    ensures NodeHash(NodeAt(s, p, gd)) == Node(s, p, gd)
  {
    hide TreeSpec.Under, StemHash.StemNodeHash, Groups.ReaderHash, TreeSpec.Ascending, BuilderSpec.ChildList;
    UnderWellHashed(s, p);
    WellHashedNonZero(s);
    if |Under(s, p)| == 1 {
      assert Under(s, p)[0].hash == StemNodeHash(Under(s, p)[0].stem, Under(s, p)[0].entries);
    } else {
      TwoUnderFit(s, p, gd);
      if gd > 0 {
        ChildMapOfList(FullSlots(s, p, gd), Pow2(gd));
        assert (map t | t in FullSlots(s, p, gd) && t < Pow2(gd) :: FullSlots(s, p, gd)[t]) == FullSlots(s, p, gd);
        ReaderHashIsNode(s, p, gd);
      }
    }
  }

  /** Where two stems share a path, the next storable depth is still within the stem. */
  lemma {:induction false} TwoUnderFit(s: seq<Item>, p: Path, gd: nat)
    requires Ascending(s) && Fits(s, gd) && |Under(s, p)| >= 2 && Collapses(|p|, gd)
    ensures if gd == 0 then |p| < MAX_DEPTH else |p| + gd <= MAX_DEPTH
    decreases |s|
  {
    hide Groups.TargetDepth;
    var init, last := s[..|s| - 1], s[|s| - 1];
    assert s == init + [last];
    UnderSnoc(init, last, p);
    AscendingInit(init, last);
    if p <= last.stem {
      assert p == last.stem[..|p|];
      CountOnPath(init, last, |p|);
      NextTarget(|p|, NextCPL(init, [last]) + 1, gd);
    } else {
      TwoUnderFit(init, p, gd);
    }
  }

  lemma {:induction false} NextTarget(d: nat, m: nat, gd: nat)
    requires d < m && Collapses(d, gd)
    ensures if gd == 0 then d < TargetDepth(m, gd) else d + gd <= TargetDepth(m, gd)
  {
    if gd > 0 { BoundariesApart(d, TargetDepth(m, gd), gd); }
  }

  // ----- lookup

  lemma {:induction false} FindUnder(s: seq<Item>, stem: Stem, p: Path)
    requires p <= stem
    ensures Find(Under(s, p), stem) == Find(s, stem)
  {
    if s != [] {
      FindUnder(s[..|s| - 1], stem, p);
      var u := Under(s[..|s| - 1], p);
      if p <= s[|s| - 1].stem {
        assert (u + [s[|s| - 1]])[..|u|] == u;
      } else {
        assert Under(s, p) == u;
      }
    }
  }

  /** A child below a shared node is stored as soon as something lies under it. */
  lemma {:induction false} ChildStored(s: seq<Item>, x: Stem, d: nat, e: nat, gd: nat)
    requires d < e <= MAX_DEPTH && Collapses(d, gd) && Collapses(e, gd) && e == (if gd == 0 then d + 1 else d + gd)
    requires |Under(s, x[..d])| >= 2 && Under(s, x[..e]) != []
    ensures Stored(s, x[..e], gd)
  {
    hide TreeSpec.Under;
    var p := x[..e];
    forall k | 0 <= k < |p| && Collapses(k, gd) ensures |Under(s, p[..k])| >= 2 {
      if gd > 0 && k > d { NoBoundaryInside(d, k, gd); }
      assert p[..k] == x[..k] <= x[..d];
      UnderAntitone(s, p[..k], x[..d]);
    }
  }

  /** Walking the finished store from the root finds exactly the fed entries of every stem, and
  nothing for a stem that was not fed. */
  lemma {:induction false} LookupFinds(store: Store, s: seq<Item>, x: Stem, d: nat, gd: nat)
    requires FinalStore(store, s, gd) && Ascending(s) && Fits(s, gd) && NonZero(s)
    requires d <= MAX_DEPTH && Collapses(d, gd) && (Under(s, x[..d]) != [] ==> Stored(s, x[..d], gd))
    ensures Lookup(store, x, d) == Find(s, x)
    decreases MAX_DEPTH - d
  {
    hide TreeSpec.Under, TreeSpec.Ascending, BuilderSteps.Fits, BuilderSpec.Stored, TreeSpec.Node;
    var p := x[..d];
    FindUnder(s, x, p);
    if Under(s, p) == [] {
      NotStored(s, p, gd);
    } else if |Under(s, p)| == 1 {
      assert store[p] == NodeAt(s, p, gd);
    } else {
      TwoUnderFit(s, p, gd);
      var e := if gd == 0 then d + 1 else d + gd;
      LookupStep(store, s, x, d, e, gd);
      if Under(s, x[..e]) != [] {
        if gd > 0 { BoundaryStep(d, gd); }
        ChildStored(s, x, d, e, gd);
        LookupFinds(store, s, x, e, gd);
      } else {
        FindUnder(s, x, x[..e]);
      }
    }
  }

  lemma {:induction false} NotStored(s: seq<Item>, p: Path, gd: nat)
    requires Under(s, p) == []
    ensures !Stored(s, p, gd)
  {
  }

  lemma {:induction false} LookupStep(store: Store, s: seq<Item>, x: Stem, d: nat, e: nat, gd: nat)
    requires FinalStore(store, s, gd) && NonZero(s) && d < e <= MAX_DEPTH && e == (if gd == 0 then d + 1 else d + gd)
    requires |Under(s, x[..d])| >= 2 && Stored(s, x[..d], gd)
    ensures Lookup(store, x, d) == if Under(s, x[..e]) == [] then None else Lookup(store, x, e)
  {
    hide TreeSpec.Under, BuilderSpec.Stored, TreeSpec.Node, BuilderSpec.ChildList, Groups.FullSlots, LeafAt,
      Groups.SlotAt;
    var p := x[..d];
    assert store[p] == NodeAt(s, p, gd);
    NodeZero(s, x[..e], gd);
    if gd == 0 {
      TakeSnoc(x, d);
    } else {
      SlotTowards(s, x, d, gd);
    }
  }

  /** Every stem, from the root. */
  lemma {:induction false} LookupFromRoot(store: Store, s: seq<Item>, x: Stem, gd: nat)
    requires FinalStore(store, s, gd) && Ascending(s) && Fits(s, gd) && NonZero(s)
    ensures Lookup(store, x, 0) == Find(s, x)
  {
    hide TreeSpec.Under, TreeSpec.Ascending, BuilderSteps.Fits, TreeSpec.Node, Lookup, BuilderSteps.FinalStore;
    if gd > 0 { ModUnique(0, gd, 0, 0); }
    LookupFinds(store, s, x, 0, gd);
  }

  /** The hash a parent stores for a child is the hash recomputed from the child's own stored node. */
  lemma {:induction false} SlotMatchesChild(store: Store, s: seq<Item>, x: Stem, d: nat, gd: nat)
    requires FinalStore(store, s, gd) && Ascending(s) && Fits(s, gd) && WellHashed(s) && gd > 0
    requires d <= MAX_DEPTH && x[..d] in store && store[x[..d]].GroupNode?
    ensures d + gd <= MAX_DEPTH
    ensures LeafAt(store[x[..d]].children, SlotAt(x, d, gd)) ==
            if x[..d + gd] in store then NodeHash(store[x[..d + gd]]) else Zero
  {
    hide TreeSpec.Ascending, BuilderSteps.Fits, TreeSpec.Node, LeafAt, Groups.SlotAt, NodeHash,
      BuilderSpec.ChildList, Groups.FullSlots;
    var p := x[..d];
    WellHashedNonZero(s);
    TwoUnderFit(s, p, gd);
    SlotTowards(s, x, d, gd);
    hide TreeSpec.Under;
    var q := x[..d + gd];
    NodeZero(s, q, gd);
    if Under(s, q) != [] {
      BoundaryStep(d, gd);
      ChildStored(s, x, d, d + gd, gd);
      RecomputedHash(s, q, gd);
    }
  }
}
