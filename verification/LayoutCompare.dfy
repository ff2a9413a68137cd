/** The two routes to the grouped layout compared: same paths, same stems and same bitmaps always; same
hashes exactly when no stem below the root group had to be extended. */
module LayoutCompare {
  import opened Stems
  import opened TreeSpec
  import opened Groups
  import opened BuilderSpec
  import opened BuilderSteps
  import opened NodeCodec
  import opened TrieReader
  import opened TrieRun
  import opened Regroup

  // ----- paths, stems and bitmaps

  lemma {:induction false} SameSlots(m: map<nat, Hash>, m': map<nat, Hash>, n: nat)
    requires m.Keys == m'.Keys
    ensures ChildSlots(ChildList(m, n)) == ChildSlots(ChildList(m', n))
  {
    if n > 0 {
      SameSlots(m, m', n - 1);
      SlotsSnoc(m, n);
      SlotsSnoc(m', n);
    }
  }

  lemma {:induction false} SlotsSnoc(m: map<nat, Hash>, n: nat)
    requires n > 0
    ensures ChildSlots(ChildList(m, n)) == ChildSlots(ChildList(m, n - 1)) + if n - 1 in m then [n - 1] else []
  {
  }

  /** Regrouping and direct emission agree on every path, every stem node and every bitmap. */
  lemma {:induction false} SameLayout(regrouped: Store, direct: Store, s: seq<Item>, gd: nat)
    requires RegroupedStore(regrouped, s, gd) && FinalStore(direct, s, gd) && gd > 0
    ensures regrouped.Keys == direct.Keys
    ensures forall p: Path :: p in direct && direct[p].StemNode? ==> regrouped[p] == direct[p]
    ensures forall p: Path :: p in direct && !direct[p].StemNode? ==>
      && direct[p].GroupNode? && regrouped[p].GroupNode? && regrouped[p].groupDepth == direct[p].groupDepth
      && ChildSlots(regrouped[p].children) == ChildSlots(direct[p].children)
  {
    hide TreeSpec.Under, TreeSpec.Node, BuilderSpec.Stored, BuilderSpec.ChildList, ChildSlots;
    forall p: Path | p in direct ensures
      && (direct[p].StemNode? ==> regrouped[p] == direct[p])
      && (!direct[p].StemNode? ==>
        && direct[p].GroupNode? && regrouped[p].GroupNode? && regrouped[p].groupDepth == direct[p].groupDepth
        && ChildSlots(regrouped[p].children) == ChildSlots(direct[p].children))
    {
      assert Stored(s, p, gd);
      assert FullSlots(s, p, gd).Keys == UngroupedSlots(s, p, gd).Keys;
      SameSlots(UngroupedSlots(s, p, gd), FullSlots(s, p, gd), Pow2(gd));
    }
    assert regrouped.Keys == direct.Keys;
  }

  // ----- hashes

  /** r is where a stem first stands alone. */
  ghost predicate LoneRoot(s: seq<Item>, r: Path) {
    |Under(s, r)| == 1 && (r != [] ==> |Under(s, r[..|r| - 1])| >= 2)
  }

  /** Every stem under q first stands alone at a boundary. */
  ghost predicate AlignedBelow(s: seq<Item>, q: Path, gd: nat)
    requires gd > 0
  {
    forall r: Path :: q <= r && (LoneRoot(s, r) || (r == q && |Under(s, r)| == 1)) ==> |r| % gd == 0
  }

  lemma {:induction false} TwoUnderTarget(s: seq<Item>, p: Path, gd: nat)
    requires Ascending(s) && Fits(s, gd) && |Under(s, p)| >= 2
    ensures |p| < MAX_DEPTH && TargetDepth(|p| + 1, gd) <= MAX_DEPTH
    decreases |s|
  {
    hide Groups.TargetDepth;
    var init, last := s[..|s| - 1], s[|s| - 1];
    assert s == init + [last];
    UnderSnoc(init, last, p);
    AscendingInit(init, last);
    if p <= last.stem {
      assert p == last.stem[..|p|];
      CountOnPath(init, last, |p|);
      NeighbourBits(init, last);
      TargetMonotone(|p| + 1, NextCPL(init, [last]) + 1, gd);
    } else {
      TwoUnderTarget(init, p, gd);
    }
  }

  lemma {:induction false} AlignedSplit(s: seq<Item>, q: Path, gd: nat)
    requires gd > 0 && |Under(s, q)| >= 2
    ensures AlignedBelow(s, q, gd) <==> AlignedBelow(s, q + [false], gd) && AlignedBelow(s, q + [true], gd)
  {
    hide TreeSpec.Under;
    AlignedHalf(s, q, false);
    AlignedHalf(s, q, true);
    if AlignedBelow(s, q + [false], gd) && AlignedBelow(s, q + [true], gd) {
      forall r: Path | q <= r && (LoneRoot(s, r) || (r == q && |Under(s, r)| == 1)) ensures |r| % gd == 0 {
        assert |r| == |q| ==> r == q;
        PathHalves(q, r);
        assert (q + [r[|q|]]) <= r;
      }
    }
  }

  lemma {:induction false} AlignedHalf(s: seq<Item>, q: Path, bit: bool)
    requires |Under(s, q)| >= 2
    ensures forall r: Path :: q + [bit] <= r && (LoneRoot(s, r) || (r == q + [bit] && |Under(s, r)| == 1)) ==>
              q <= r && LoneRoot(s, r)
  {
    hide TreeSpec.Under;
    assert (q + [bit])[..|q|] == q;
  }

  /** Under a lone path nothing else starts. */
  lemma {:induction false} AlignedLone(s: seq<Item>, q: Path, gd: nat)
    requires gd > 0 && |Under(s, q)| == 1
    ensures AlignedBelow(s, q, gd) <==> |q| % gd == 0
  {
    hide TreeSpec.Under;
    forall r: Path | q <= r && LoneRoot(s, r) ensures r == q {
      if r != q { UnderAntitone(s, q, r[..|r| - 1]); }
    }
    assert q <= q;
  }

  lemma {:induction false} AlignedEmpty(s: seq<Item>, q: Path, gd: nat)
    requires gd > 0 && Under(s, q) == []
    ensures AlignedBelow(s, q, gd)
  {
    hide TreeSpec.Under;
    forall r: Path | q <= r ensures |Under(s, r)| != 1 { UnderAntitone(s, q, r); }
  }

  lemma {:induction false} LoneHash(s: seq<Item>, q: Path)
    requires WellHashed(s) && |Under(s, q)| == 1
    ensures Under(s, q)[0].hash.StemRoot?
  {
    hide Groups.ReaderHash;
    UnderWellHashed(s, q);
  }

  /** The ungrouped and the grouped hash of a node agree exactly when every stem under it first stands
  alone at a boundary. */
  lemma {:induction false} HashesAgreeIff(s: seq<Item>, q: Path, gd: nat)
    requires Ascending(s) && Fits(s, gd) && WellHashed(s) && gd > 0 && |q| <= MAX_DEPTH
    requires |q| == MAX_DEPTH ==> Collapses(|q|, gd)
    ensures Node(s, q, 0) == Node(s, q, gd) <==> AlignedBelow(s, q, gd)
    decreases MAX_DEPTH - |q|
  {
    hide TreeSpec.Under, AlignedBelow, TreeSpec.Ascending, BuilderSteps.Fits, WellHashed;
    if Under(s, q) == [] {
      AlignedEmpty(s, q, gd);
    } else if |Under(s, q)| == 1 {
      AlignedLone(s, q, gd);
      LoneHash(s, q);
    } else {
      TwoUnderTarget(s, q, gd);
      AlignedSplit(s, q, gd);
      if |q| + 1 == MAX_DEPTH { assert TargetDepth(|q| + 1, gd) == MAX_DEPTH; }
      HashesAgreeIff(s, q + [false], gd);
      HashesAgreeIff(s, q + [true], gd);
    }
  }

  lemma {:induction false} LoneRootIsStored(s: seq<Item>, r: Path)
    ensures Stored(s, r, 0) && |Under(s, r)| == 1 <==> LoneRoot(s, r)
  {
    hide TreeSpec.Under;
    if LoneRoot(s, r) {
      LoneStemAt(s, r, Under(s, r)[0]);
      StoredUngrouped(s, r);
    }
    if Stored(s, r, 0) && |Under(s, r)| == 1 && r != [] { assert |Under(s, r[..|r| - 1])| >= 2; }
  }

  /** The ungrouped root equals the grouped root exactly when every stem of the ungrouped store sits at
  a multiple of the group depth. */
  lemma {:induction false} RootsAgreeIff(ungrouped: Store, s: seq<Item>, gd: nat)
    requires FinalStore(ungrouped, s, 0) && Ascending(s) && Fits(s, gd) && WellHashed(s) && gd > 0
    ensures Root(s, 0) == Root(s, gd) <==>
      forall p: Path :: p in ungrouped && ungrouped[p].StemNode? ==> |p| % gd == 0
  {
    hide TreeSpec.Under, TreeSpec.Node, TreeSpec.Ascending, BuilderSteps.Fits, WellHashed, LoneRoot,
      BuilderSteps.FinalStore;
    HashesAgreeIff(s, [], gd);
    forall r: Path ensures (r in ungrouped && ungrouped[r].StemNode?) <==> LoneRoot(s, r) {
      StemPathIff(ungrouped, s, r);
    }
    LoneRootCount(s, []);
  }

  lemma {:induction false} LoneRootCount(s: seq<Item>, r: Path)
    ensures r == [] && |Under(s, r)| == 1 ==> LoneRoot(s, r)
  {
  }

  lemma {:induction false} StemPathIff(ungrouped: Store, s: seq<Item>, r: Path)
    requires FinalStore(ungrouped, s, 0)
    ensures (r in ungrouped && ungrouped[r].StemNode?) <==> LoneRoot(s, r)
  {
    hide TreeSpec.Under, TreeSpec.Node;
    LoneRootIsStored(s, r);
    if r in ungrouped { InternalIsShared(ungrouped, s, r); }
  }

  // ----- equality of the two stores

  /** Regrouping yields the directly emitted store exactly when every stem of the ungrouped store lies
  in the root group or at a multiple of the group depth. */
  lemma {:induction false} StoresAgreeIff(ungrouped: Store, regrouped: Store, direct: Store, s: seq<Item>, gd: nat)
    requires FinalStore(ungrouped, s, 0) && RegroupedStore(regrouped, s, gd) && FinalStore(direct, s, gd)
    requires Ascending(s) && Fits(s, gd) && WellHashed(s) && gd > 0
    ensures regrouped == direct <==>
      forall r: Path :: r in ungrouped && ungrouped[r].StemNode? ==> |r| < gd || |r| % gd == 0
  {
    hide TreeSpec.Under, TreeSpec.Node, TreeSpec.Ascending, BuilderSteps.Fits, WellHashed, LoneRoot,
      BuilderSteps.FinalStore, RegroupedStore, RegroupedAt, BuilderSpec.NodeAt, BuilderSpec.Stored;
    forall r: Path ensures (r in ungrouped && ungrouped[r].StemNode?) <==> LoneRoot(s, r) {
      StemPathIff(ungrouped, s, r);
    }
    if forall r: Path :: LoneRoot(s, r) ==> |r| < gd || |r| % gd == 0 {
      forall p: Path ensures p in regrouped <==> p in direct
                     ensures p in direct ==> regrouped[p] == direct[p]
      {
        AlignedNodes(regrouped, direct, s, p, gd);
      }
    }
    forall r: Path | LoneRoot(s, r) && !(|r| < gd || |r| % gd == 0) ensures regrouped != direct {
      MisalignedNode(regrouped, direct, s, r, gd);
    }
  }

  /** If all stems below the root group are aligned, the stores agree at every path. */
  lemma {:induction false} AlignedNodes(regrouped: Store, direct: Store, s: seq<Item>, p: Path, gd: nat)
    requires RegroupedStore(regrouped, s, gd) && FinalStore(direct, s, gd)
    requires Ascending(s) && Fits(s, gd) && WellHashed(s) && gd > 0
    requires forall r: Path :: LoneRoot(s, r) ==> |r| < gd || |r| % gd == 0
    ensures p in regrouped <==> p in direct
    ensures p in direct ==> regrouped[p] == direct[p]
  {
    hide TreeSpec.Under, TreeSpec.Node, TreeSpec.Ascending, BuilderSteps.Fits, WellHashed, LoneRoot,
      BuilderSpec.ChildList;
    if p in direct && |Under(s, p)| != 1 {
      assert Stored(s, p, gd);
      TwoUnderFit(s, p, gd);
      forall t: nat | t < Pow2(gd) ensures Node(s, Child(p, t, gd), 0) == Node(s, Child(p, t, gd), gd) {
        AlignedChild(s, p, t, gd);
      }
      assert FullSlots(s, p, gd) == UngroupedSlots(s, p, gd);
    }
  }

  lemma {:induction false} AlignedChild(s: seq<Item>, p: Path, t: nat, gd: nat)
    requires Ascending(s) && Fits(s, gd) && WellHashed(s) && gd > 0 && |p| % gd == 0 && |p| + gd <= MAX_DEPTH
    requires forall r: Path :: LoneRoot(s, r) ==> |r| < gd || |r| % gd == 0
    ensures Node(s, Child(p, t, gd), 0) == Node(s, Child(p, t, gd), gd)
  {
    hide TreeSpec.Under, TreeSpec.Node, TreeSpec.Ascending, BuilderSteps.Fits, WellHashed, LoneRoot;
    var q := Child(p, t, gd);
    BoundaryStep(|p|, gd);
    HashesAgreeIff(s, q, gd);
    forall r: Path | q <= r && (LoneRoot(s, r) || (r == q && |Under(s, r)| == 1)) ensures |r| % gd == 0 {
      assert |r| >= |q| >= gd;
      if |r| == |q| { assert r == q; }
    }
  }

  /** A misaligned stem below the root group shows in the slot of the group above it. */
  lemma {:induction false} MisalignedNode(regrouped: Store, direct: Store, s: seq<Item>, r: Path, gd: nat)
    requires RegroupedStore(regrouped, s, gd) && FinalStore(direct, s, gd)
    requires Ascending(s) && Fits(s, gd) && WellHashed(s) && gd > 0
    requires LoneRoot(s, r) && |r| >= gd && |r| % gd != 0
    ensures regrouped != direct
  {
    hide TreeSpec.Node, TreeSpec.Ascending, BuilderSteps.Fits, WellHashed, BuilderSpec.ChildList, TreeSpec.Under;
    LoneStemAt(s, r, Under(s, r)[0]);
    var x := Under(s, r)[0].stem;
    var c := BoundaryOf(|r|, gd);
    ModUnique(0, gd, 0, 0);
    if c < gd { BoundariesApart(c, gd, gd); }
    var b := c - gd;
    BoundaryStep(c, gd);
    assert x[..c] == r[..c] <= r[..|r| - 1];
    UnderAntitone(s, x[..c], r[..|r| - 1]);
    UnderAntitone(s, x[..b], x[..c]);
    SharedIsStored(s, x[..b], gd);
    SlotsDiffer(s, x, r, b, gd);
    assert direct[x[..b]] == NodeAt(s, x[..b], gd) && regrouped[x[..b]] == RegroupedAt(s, x[..b], gd);
    SlotsBound(s, x[..b], gd);
  }

  lemma {:induction false} SharedIsStored(s: seq<Item>, p: Path, gd: nat)
    requires |Under(s, p)| >= 2 && |p| <= MAX_DEPTH && gd > 0 && |p| % gd == 0
    ensures Stored(s, p, gd) && NodeAt(s, p, gd) == GroupNode(gd, ChildList(FullSlots(s, p, gd), Pow2(gd)))
  {
  }

  lemma {:induction false} SlotsDiffer(s: seq<Item>, x: Stem, r: Path, b: nat, gd: nat)
    requires Ascending(s) && Fits(s, gd) && WellHashed(s) && gd > 0 && b % gd == 0 && b + gd <= |r| <= MAX_DEPTH
    requires LoneRoot(s, r) && r == x[..|r|] && |r| % gd != 0 && |Under(s, x[..b + gd])| >= 2
    ensures ChildList(FullSlots(s, x[..b], gd), Pow2(gd)) != ChildList(UngroupedSlots(s, x[..b], gd), Pow2(gd))
  {
    hide TreeSpec.Node, TreeSpec.Ascending, BuilderSteps.Fits, WellHashed, BuilderSpec.ChildList, TreeSpec.Under,
      LoneRoot, LeafAt, Groups.SlotAt;
    var q, t := x[..b + gd], SlotAt(x, b, gd);
    BoundaryStep(b, gd);
    ChildOnPath(x, b, 0, gd);
    assert q == r[..b + gd] <= r;
    HashesAgreeIff(s, q, gd);
    assert !AlignedBelow(s, q, gd);
    LeafAtChildList(FullSlots(s, x[..b], gd), Pow2(gd), t);
    LeafAtChildList(UngroupedSlots(s, x[..b], gd), Pow2(gd), t);
  }

  // ----- two stems

  lemma {:induction false} UnderTwo(x: Item, y: Item, p: Path)
    ensures Under([x, y], p) == (if p <= x.stem then [x] else []) + (if p <= y.stem then [y] else [])
  {
    assert [x, y] == [x] + [y] && [x] == [] + [x];
    UnderSnoc([x], y, p);
    UnderSnoc([], x, p);
  }

  lemma {:induction false} SharedByBoth(x: Stem, y: Stem, p: Path)
    ensures p <= x && p <= y <==> p <= x && |p| <= CommonPrefixLen(x, y)
  {
    hide Stems.CommonPrefixLen;
    if p <= x {
      assert p == x[..|p|];
      AgreeIffCommonPrefix(x, y, |p|);
    }
  }

  /** The stem nodes of two stems lie one level below their branch point. */
  lemma {:induction false} TwoStemPaths(ungrouped: Store, x: Item, y: Item, r: Path)
    requires FinalStore(ungrouped, [x, y], 0) && Before(x.stem, y.stem)
    ensures var c := CommonPrefixLen(x.stem, y.stem);
            && (r in ungrouped && ungrouped[r].StemNode? ==> |r| == c + 1)
            && x.stem[..c + 1] in ungrouped && ungrouped[x.stem[..c + 1]].StemNode?
  {
    hide TreeSpec.Under, Stems.CommonPrefixLen;
    var s, c := [x, y], CommonPrefixLen(x.stem, y.stem);
    if r in ungrouped && ungrouped[r].StemNode? {
      InternalIsShared(ungrouped, s, r);
      UnderTwo(x, y, []);
      UnderTwo(x, y, r);
      SharedByBoth(x.stem, y.stem, r);
      assert |r| > 0;
      var q := r[..|r| - 1];
      assert |Under(s, q)| >= 2;
      UnderTwo(x, y, q);
      SharedByBoth(x.stem, y.stem, q);
      if r <= x.stem { assert r == x.stem[..|r|]; }
      if r <= y.stem { AgreeIffCommonPrefix(x.stem, y.stem, |r|); }
    }
    var p := x.stem[..c + 1];
    forall k | 0 <= k <= c ensures |Under(s, p[..k])| >= 2 {
      assert p[..k] == x.stem[..k];
      UnderTwo(x, y, p[..k]);
      SharedByBoth(x.stem, y.stem, p[..k]);
    }
    UnderTwo(x, y, p);
    SharedByBoth(x.stem, y.stem, p);
    assert Stored(s, p, 0);
  }

  /** For two stems the two routes give the same store exactly when the level below their branch point lies in
  the root group or at a multiple of the group depth. */
  lemma {:induction false} TwoStems(ungrouped: Store, regrouped: Store, direct: Store, x: Item, y: Item, gd: nat)
    requires FinalStore(ungrouped, [x, y], 0) && RegroupedStore(regrouped, [x, y], gd) && FinalStore(direct, [x, y], gd)
    requires Before(x.stem, y.stem) && Fits([x, y], gd) && WellHashed([x, y]) && gd > 0
    ensures regrouped == direct <==>
      CommonPrefixLen(x.stem, y.stem) + 1 < gd || (CommonPrefixLen(x.stem, y.stem) + 1) % gd == 0
  {
    hide Stems.CommonPrefixLen, BuilderSteps.FinalStore, RegroupedStore, BuilderSteps.Fits, WellHashed,
      Stems.Before;
    assert Ascending([x, y]);
    StoresAgreeIff(ungrouped, regrouped, direct, [x, y], gd);
    var c := CommonPrefixLen(x.stem, y.stem);
    forall r: Path ensures r in ungrouped && ungrouped[r].StemNode? ==> |r| == c + 1 {
      TwoStemPaths(ungrouped, x, y, r);
    }
    TwoStemPaths(ungrouped, x, y, []);
    BranchDepth(x.stem, y.stem);
    assert |x.stem[..c + 1]| == c + 1;
  }

  lemma {:induction false} BranchDepth(x: Stem, y: Stem)
    requires Before(x, y)
    ensures CommonPrefixLen(x, y) < MAX_DEPTH
  {
  }

  /** Two stems that first differ in bit 2, regrouped to depth 2, give a store that direct emission does not. */
  lemma {:induction false} StoresDiffer(ungrouped: Store, regrouped: Store, direct: Store, x: Item, y: Item)
    requires x.stem == seq(MAX_DEPTH, _ => false) && y.stem == x.stem[2 := true]
    requires FinalStore(ungrouped, [x, y], 0) && RegroupedStore(regrouped, [x, y], 2) && FinalStore(direct, [x, y], 2)
    requires WellHashed([x, y])
    ensures regrouped != direct
  {
    hide BuilderSteps.FinalStore, RegroupedStore, BuilderSteps.Fits, WellHashed;
    FirstDifference(x.stem, y.stem, 2);
    assert Before(x.stem, y.stem);
    assert Ascending([x, y]);
    DividingDepthFits([x, y], 2);
    hide Stems.CommonPrefixLen, Stems.Before;
    TwoStems(ungrouped, regrouped, direct, x, y, 2);
  }
}
