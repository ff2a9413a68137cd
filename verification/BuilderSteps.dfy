/** Facts about a single placement that the builder's methods rely on. */
module BuilderSteps {
  import opened Stems
  import opened TreeSpec
  import opened Groups
  import opened BuilderSpec

  /** Every prefix of stem has something placed under it. */
  ghost predicate OnPath(s: seq<Item>, stem: Stem) {
    forall d: nat :: d <= MAX_DEPTH ==> Reaches(s, stem, d)
  }

  ghost predicate Reaches(s: seq<Item>, stem: Stem, d: nat)
    requires d <= MAX_DEPTH
  {
    Under(s, stem[..d]) != []
  }

  /** Hash of the node at depth d on the path of stem. */
  ghost function NodeOn(s: seq<Item>, stem: Stem, d: nat, gd: nat): Hash
    requires d <= MAX_DEPTH
  {
    Node(s, stem[..d], gd)
  }

  /** Nothing placed lies to the right of stem. */
  ghost predicate Rightmost(s: seq<Item>, stem: Stem) {
    forall d: nat :: d < MAX_DEPTH && !stem[d] ==> NoneRight(s, stem, d)
  }

  ghost predicate NoneRight(s: seq<Item>, stem: Stem, d: nat)
    requires d < MAX_DEPTH
  {
    Under(s, stem[..d] + [true]) == []
  }

  /** Between depths lo and hi no node on the path of stem stands for a lone stem. */
  ghost predicate AllSplit(s: seq<Item>, stem: Stem, lo: int, hi: int, gd: nat) {
    forall d: nat :: lo < d <= hi && d <= MAX_DEPTH ==> SplitsAt(s, stem, d, gd)
  }

  ghost predicate SplitsAt(s: seq<Item>, stem: Stem, d: nat, gd: nat)
    requires d <= MAX_DEPTH
  {
    Splits(s, stem[..d], gd)
  }

  /** A sealed slot on the path of stem already holds the hash that would be recorded there. */
  ghost predicate SealedAgree(
    seal: map<nat, set<nat>>, buf: Buckets, s: seq<Item>, stem: Stem, lo: int, hi: int, gd: nat)
  {
    forall b: nat :: GroupDepthAt(b, gd) && lo < b + gd <= hi && b in seal && SlotAt(stem, b, gd) in seal[b] ==>
      SlotAt(stem, b, gd) in Bucket(buf, b) && Bucket(buf, b)[SlotAt(stem, b, gd)] == Node(s, stem[..b + gd], gd)
  }

  ghost predicate SealedSubset(seal: map<nat, set<nat>>, buf: Buckets) {
    forall b :: b in seal ==> seal[b] <= Bucket(buf, b).Keys
  }

  function SealedAt(seal: map<nat, set<nat>>, b: nat): set<nat> {
    if b in seal then seal[b] else {}
  }

  lemma {:induction false} StemOnPath(buf: Buckets, stems: map<nat, Stem>, l: Stem, b: nat, gd: nat)
    requires BucketsShape(buf, stems, l, gd) && b in buf
    ensures GroupDepthAt(b, gd) && b in stems && stems[b][..b] == l[..b] && buf[b] != map[]
  {
  }

  /** Cascading keeps sealed slots inside their buckets. */
  lemma {:induction false} SealedCascade(seal: map<nat, set<nat>>, buf: Buckets, l: Stem, b: nat, h: Hash, gd: nat)
    requires SealedSubset(seal, buf) && GroupDepthAt(b, gd)
    ensures SealedSubset(
      if b < gd then seal - {b} else (seal - {b})[b - gd := SealedAt(seal - {b}, b - gd) + {SlotAt(l, b - gd, gd)}],
      Cascaded(buf, l, b, h, gd))
  {
    hide Groups.SlotAt;
    forall x: nat ensures Bucket(Cascaded(buf, l, b, h, gd), x) ==
      if x == b then map[]
      else if x + gd == b then Bucket(buf, x)[SlotAt(l, x, gd) := h]
      else Bucket(buf, x)
    {
      CascadedAt(buf, l, b, h, x, gd);
    }
  }

  /** A boundary below the target depth has a complete bucket, any other boundary has none. */
  lemma {:induction false} FlushCase(
    buf: Buckets, stems: map<nat, Stem>, s: seq<Item>, l: Stem, lo: int, hi: nat, b: nat, gd: nat)
    requires gd > 0 && b % gd == 0 && hi % gd == 0 && hi <= MAX_DEPTH && b < MAX_DEPTH && lo < b + gd
    requires BucketsAre(buf, s, l, lo, hi, b, gd) && BucketsShape(buf, stems, l, gd)
    requires |Under(s, l[..hi])| == 1 && OnPath(s, l) && (b < hi ==> |Under(s, l[..b])| >= 2)
    ensures b < hi ==>
      && GroupDepthAt(b, gd) && b in buf && b in stems && Under(s, l[..b]) != []
      && buf[b] == FullSlots(s, l[..b], gd) && buf[b] != map[]
      && (forall t :: t in buf[b] ==> t < Pow2(gd))
      && NodeAt(s, l[..b], gd) == GroupNode(gd, ChildList(buf[b], Pow2(gd)))
    ensures b >= hi ==> b !in buf
  {
    hide TreeSpec.Node, TreeSpec.Under, BuilderSpec.ChildList, BuilderSpec.Slots;
    if b < hi {
      BoundariesApart(b, hi, gd);
      SlotsFull(s, l, b, lo, hi, gd);
      ChildOnPath(l, b, 0, gd);
      assert Reaches(s, l, b + gd);
      assert GroupDepthAt(b, gd) && Bucket(buf, b) == FullSlots(s, l[..b], gd);
      assert SlotAt(l, b, gd) in Bucket(buf, b);
    } else if GroupDepthAt(b, gd) {
      assert Reaches(s, l, b + gd) && Reaches(s, l, b);
      SlotsBelowTarget(s, l, b, lo, hi, gd);
    }
  }

  /** The path of a flush down to depth c: the last stem lies alone at depth hi, and no group above it was
  written before. */
  ghost predicate FlushPath(s: seq<Item>, l: Stem, hi: nat, c: int, store: Store, gd: nat) {
    && gd > 0 && -1 <= c < hi <= MAX_DEPTH && hi % gd == 0 && NonZero(s) && OnPath(s, l) && |Under(s, l[..hi])| == 1
    && forall d: nat :: c < d < hi && d % gd == 0 ==> |Under(s, l[..d])| >= 2 && l[..d] !in store
  }

  lemma {:induction false} FlushPathAt(s: seq<Item>, l: Stem, hi: nat, c: int, store: Store, gd: nat, b: nat)
    requires FlushPath(s, l, hi, c, store, gd) && c < b && b % gd == 0
    ensures -1 <= c && hi <= MAX_DEPTH && hi % gd == 0 && NonZero(s) && OnPath(s, l) && |Under(s, l[..hi])| == 1
    ensures b < hi ==> |Under(s, l[..b])| >= 2 && l[..b] !in store
  {
    hide TreeSpec.Under, OnPath, TreeSpec.NonZero;
  }

  lemma {:induction false} FlushStart(
    buf: Buckets, store: Store, s: seq<Item>, l: Stem, lo: int, hi: int, b: nat, c: int, gd: nat)
    requires gd > 0 && b % gd == 0 && b < MAX_DEPTH <= b + gd && hi <= MAX_DEPTH
    requires BucketsAre(buf, s, l, lo, hi, MAX_DEPTH, gd)
    ensures BucketsAre(buf, s, l, lo, hi, b, gd)
    ensures StepDepth(b, gd)
    ensures StoreGrown(store, store, s, l, Max(b, c), hi, gd)
  {
    hide BuilderSpec.Slots, BuilderSpec.StoreGrown;
    forall x: nat | GroupDepthAt(x, gd) ensures x <= b {
      if b < x { BoundariesApart(b, x, gd); }
    }
    BoundaryStep(b, gd);
    GrowNothing(store, s, l, Max(b, c), b, hi, gd);
  }

  lemma {:induction false} SkipBucket(buf: Buckets, s: seq<Item>, l: Stem, lo: int, hi: int, b: nat, gd: nat)
    requires gd > 0 && b % gd == 0 && BucketsAre(buf, s, l, lo, hi, b, gd) && Bucket(buf, b) == map[]
    ensures BucketsAre(buf, s, l, lo, hi, b - gd, gd)
  {
    hide BuilderSpec.Slots;
    forall x: nat | GroupDepthAt(x, gd)
      ensures Bucket(buf, x) == if x <= b - gd then Slots(s, l, x, lo, hi, gd) else map[]
    {
      if x < b { BoundariesApart(x, b, gd); }
    }
  }

  lemma {:induction false} FlushedGrow(flushed: set<Path>, store: Store, s: seq<Item>, p: Path, gd: nat)
    requires FlushedAre(flushed, store) && NodeAt(s, p, gd).GroupNode?
    ensures FlushedAre(flushed + {p}, store[p := NodeAt(s, p, gd)])
  {
  }

  // ----- placing the deferred item n after s

  lemma {:induction false} LastOnPath(s: seq<Item>)
    requires s != []
    ensures OnPath(s, s[|s| - 1].stem)
  {
    hide TreeSpec.Under;
    var l := s[|s| - 1].stem;
    forall d: nat | d <= MAX_DEPTH ensures Reaches(s, l, d) {
      UnderKeeps(s, l[..d], |s| - 1);
    }
  }

  lemma {:induction false} LastIsRightmost(s: seq<Item>)
    requires s != [] && Ascending(s)
    ensures Rightmost(s, s[|s| - 1].stem)
  {
    hide TreeSpec.Under;
    var l := s[|s| - 1].stem;
    forall d: nat | d < MAX_DEPTH && !l[d] ensures NoneRight(s, l, d) {
      NothingRight(s, d);
    }
  }

  /** At the first difference the earlier stem goes left and the later one right. */
  lemma {:induction false} NeighbourBits(s: seq<Item>, n: Item)
    requires s != [] && Ascending(s + [n])
    ensures var c := NextCPL(s, [n]);
            0 <= c < MAX_DEPTH && !s[|s| - 1].stem[c] && n.stem[c] && s[|s| - 1].stem[..c] == n.stem[..c]
  {
    AscendingInit(s, n);
    AgreeIffCommonPrefix(s[|s| - 1].stem, n.stem, NextCPL(s, [n]));
  }

  /** Depth at which n is stored between its neighbours. */
  ghost function PlaceDepth(s: seq<Item>, n: Item, next: seq<Item>, gd: nat): nat {
    TargetDepth(Max(NextCPL(s, [n]), NextCPL(s + [n], next)) + 1, gd)
  }

  /** n is alone at its depth, and on the way up to the next item's branch no node is a lone stem. */
  lemma {:induction false} PlaceFacts(s: seq<Item>, n: Item, next: seq<Item>, gd: nat)
    requires Ascending(s + [n]) && |next| <= 1 && Ascending(s + [n] + next)
    requires PlaceDepth(s, n, next, gd) <= MAX_DEPTH
    ensures var t: int := PlaceDepth(s, n, next, gd);
      && NextCPL(s, [n]) < t && NextCPL(s + [n], next) < t && Collapses(t, gd)
      && Under(s + [n], n.stem[..t]) == [n]
      && Node(s + [n], n.stem[..t], gd) == n.hash
      && AllSplit(s + [n], n.stem, NextCPL(s + [n], next), t - 1, gd)
  {
    var t: int := PlaceDepth(s, n, next, gd);
    CountOnPath(s, n, t);
    UnderSnoc(s, n, n.stem[..t]);
    LoneNode(s + [n], n, n.stem[..t], gd);
    hide TreeSpec.Node, TreeSpec.Under, TreeSpec.Ascending;
    var f := s + [n];
    forall d: nat | NextCPL(f, next) < d <= t - 1 ensures SplitsAt(f, n.stem, d, gd) {
      CountOnPath(s, n, d);
    }
  }

  lemma {:induction false} LoneNode(s: seq<Item>, n: Item, p: Path, gd: nat)
    requires |Under(s, p)| == 1 && Under(s, p) == [n] && Collapses(|p|, gd)
    ensures Node(s, p, gd) == n.hash
  {
    hide TreeSpec.Under;
  }

  /** The pending left siblings of n are those of its left neighbour, plus the neighbour's branch. */
  lemma {:induction false} SiblingsMove(s: seq<Item>, n: Item, d: nat, gd: nat)
    requires s != [] && Ascending(s + [n]) && d < MAX_DEPTH
    ensures var l, c := s[|s| - 1].stem, NextCPL(s, [n]);
      (d == c || (d < c && l[d] && Under(s, l[..d] + [false]) != [])) <==>
      (n.stem[d] && Under(s + [n], n.stem[..d] + [false]) != [])
    ensures var l, c := s[|s| - 1].stem, NextCPL(s, [n]);
      d <= c ==>
        && l[..d] == n.stem[..d]
        && (n.stem[d] ==> Node(s + [n], n.stem[..d] + [false], gd) == Node(s, l[..d] + [false], gd))
  {
    hide TreeSpec.Node, TreeSpec.Ascending, BuilderSpec.NextCPL;
    var l, c := s[|s| - 1].stem, NextCPL(s, [n]);
    NeighbourBits(s, n);
    if n.stem[d] {
      NotPrefix(n.stem, d);
      NodeFrame(s, n, n.stem[..d] + [false], gd);
    }
    if d < c {
      assert l[..d] == l[..c][..d] && n.stem[..d] == n.stem[..c][..d];
      assert l[d] == l[..c][d] && n.stem[d] == n.stem[..c][d];
    } else if d == c {
      TakeSnoc(l, d);
      UnderKeeps(s, l[..d + 1], |s| - 1);
    } else {
      CountOnPath(s, n, d);
      UnderSnoc(s, n, n.stem[..d]);
      UnderAntitone(s, n.stem[..d], n.stem[..d] + [false]);
    }
  }

  lemma {:induction false} NotPrefix(x: Stem, d: nat)
    requires d < MAX_DEPTH && x[d]
    ensures !(x[..d] + [false] <= x)
  {
    assert (x[..d] + [false])[d] == false;
  }

  // ----- the resting state: s placed, n deferred

  /** Buffers of the resting state. */
  ghost predicate RestBuckets(buf: Buckets, s: seq<Item>, n: Item, gd: nat) {
    BucketsAre(buf, s, n.stem, MAX_DEPTH, MAX_DEPTH, MAX_DEPTH, gd)
  }

  /** The buckets in use lie on the path that n shares with its left neighbour. */
  lemma {:induction false} RestAgrees(
    buf: Buckets, stems: map<nat, Stem>, l: Stem, s: seq<Item>, n: Item, b: nat, gd: nat)
    requires s != [] && Ascending(s + [n]) && RestBuckets(buf, s, n, gd)
    requires BucketsShape(buf, stems, l, gd) && b in buf
    ensures b <= NextCPL(s, [n]) && n.stem[..b] == s[|s| - 1].stem[..b]
  {
    hide BuilderSpec.Slots;
    assert GroupDepthAt(b, gd);
    RestIsShallow(buf, s, n, b, gd);
  }

  /** In the resting state the buffers may be read along either neighbour. */
  lemma {:induction false} ShapeMoves(buf: Buckets, stems: map<nat, Stem>, s: seq<Item>, n: Item, gd: nat)
    requires s != [] && Ascending(s + [n]) && RestBuckets(buf, s, n, gd)
    ensures BucketsShape(buf, stems, n.stem, gd) <==> BucketsShape(buf, stems, s[|s| - 1].stem, gd)
  {
    hide RestBuckets;
    if BucketsShape(buf, stems, n.stem, gd) {
      forall b | b in buf ensures n.stem[..b] == s[|s| - 1].stem[..b] { RestAgrees(buf, stems, n.stem, s, n, b, gd); }
    }
    if BucketsShape(buf, stems, s[|s| - 1].stem, gd) {
      forall b | b in buf ensures n.stem[..b] == s[|s| - 1].stem[..b] {
        RestAgrees(buf, stems, s[|s| - 1].stem, s, n, b, gd);
      }
    }
  }

  /** A record that meets a sealed slot while the left neighbour is re-traversed carries the hash
  that is already there. */
  lemma {:induction false} SealedRest(
    seal: map<nat, set<nat>>, buf: Buckets, stems: map<nat, Stem>, s: seq<Item>, n: Item, lo: int, hi: int, gd: nat)
    requires s != [] && Ascending(s + [n]) && RestBuckets(buf, s, n, gd)
    requires BucketsShape(buf, stems, n.stem, gd) && SealedSubset(seal, buf)
    ensures SealedAgree(seal, buf, s, s[|s| - 1].stem, lo, hi, gd)
  {
    hide TreeSpec.Node, TreeSpec.Under, Groups.SlotAt, TreeSpec.Ascending, BuilderSpec.Slots;
    var l := s[|s| - 1].stem;
    forall b: nat | GroupDepthAt(b, gd) && b in seal && SlotAt(l, b, gd) in seal[b]
      ensures SlotAt(l, b, gd) in Bucket(buf, b) && Bucket(buf, b)[SlotAt(l, b, gd)] == Node(s, l[..b + gd], gd)
    {
      assert SlotAt(l, b, gd) in Bucket(buf, b).Keys;
      SlotHoldsNode(buf, s, n, b, gd);
    }
  }

  lemma {:induction false} SlotHoldsNode(buf: Buckets, s: seq<Item>, n: Item, b: nat, gd: nat)
    requires s != [] && Ascending(s + [n]) && GroupDepthAt(b, gd)
    requires Bucket(buf, b) == Slots(s, n.stem, b, MAX_DEPTH, MAX_DEPTH, gd)
    requires SlotAt(s[|s| - 1].stem, b, gd) in Bucket(buf, b)
    ensures Bucket(buf, b)[SlotAt(s[|s| - 1].stem, b, gd)] == Node(s, s[|s| - 1].stem[..b + gd], gd)
  {
    hide TreeSpec.Node, TreeSpec.Under, Groups.SlotAt, TreeSpec.Ascending;
    RestIsShallow(buf, s, n, b, gd);
    ChildOnPath(s[|s| - 1].stem, b, 0, gd);
  }

  /** Before n is placed no slot towards n is in any bucket, so none is sealed. */
  lemma {:induction false} SealedFresh(
    seal: map<nat, set<nat>>, buf: Buckets, s: seq<Item>, n: Item, f: seq<Item>, lo: int, hi: int, gd: nat)
    requires RestBuckets(buf, s, n, gd) && SealedSubset(seal, buf)
    ensures SealedAgree(seal, buf, f, n.stem, lo, hi, gd)
  {
    hide TreeSpec.Node, TreeSpec.Under, Groups.SlotAt;
    forall b: nat | GroupDepthAt(b, gd) && b in seal && SlotAt(n.stem, b, gd) in seal[b] ensures false {
      assert SlotAt(n.stem, b, gd) in Bucket(buf, b).Keys;
      ChildOnPath(n.stem, b, 0, gd);
    }
  }

  /** Re-traversing the left neighbour from its frontier leaves the buffers alone. */
  lemma {:induction false} RetraversalIsNoop(
    buf: Buckets, flushed: set<Path>, store: Store, s: seq<Item>, n: Item, hi: int, gd: nat)
    requires s != [] && Ascending(s + [n]) && gd > 0 && RestBuckets(buf, s, n, gd)
    requires StoreIs(store, s, [n], s[|s| - 1].stem, NextCPL(s, [n]), gd) && FlushedAre(flushed, store)
    requires NextCPL(s, [n]) <= hi <= MAX_DEPTH && AllSplit(s, s[|s| - 1].stem, NextCPL(s, [n]), hi, gd)
    ensures Recorded(buf, flushed, s, s[|s| - 1].stem, NextCPL(s, [n]), hi, gd) == buf
  {
    hide TreeSpec.Node, TreeSpec.Under, Groups.SlotAt, TreeSpec.Ascending, BuilderSpec.Slots, BuilderSpec.StoreIs,
      BuilderSpec.FlushedAre, BuilderSpec.AlreadyRecorded, BuilderSpec.NextCPL, BuilderSpec.Recorded;
    var l, c := s[|s| - 1].stem, NextCPL(s, [n]);
    forall d: nat | c < d <= hi && d % gd == 0 && d >= gd ensures AlreadyRecorded(buf, flushed, store, s, l, d, gd) {
      assert SplitsAt(s, l, d, gd);
      BoundaryStep(d, gd);
      assert GroupDepthAt(d - gd, gd);
      RetraversalIsRecorded(buf, flushed, store, s, n, d - gd, gd);
    }
    RecordedNoop(buf, flushed, store, s, l, c, hi, gd);
  }

  /** Recording the hash a slot already holds changes nothing. */
  lemma {:induction false} SealedIsRecorded(buf: Buckets, flushed: set<Path>, l: Stem, d: nat, h: Hash, gd: nat)
    requires 0 < gd <= d <= MAX_DEPTH
    requires var b, t := d - gd, SlotAt(l, d - gd, gd); t in Bucket(buf, b) && Bucket(buf, b)[t] == h
    ensures RecordOne(buf, flushed, l, d, h, gd) == buf
  {
    hide Groups.SlotAt;
    var b, t := d - gd, SlotAt(l, d - gd, gd);
    assert buf[b] == buf[b][t := h];
  }

  /** Recording only adds slots. */
  lemma {:induction false} SealedRecorded(
    seal: map<nat, set<nat>>, buf: Buckets, flushed: set<Path>, s: seq<Item>, l: Stem, lo: int, hi: int, gd: nat)
    requires SealedSubset(seal, buf) && gd > 0 && -1 <= lo && hi <= MAX_DEPTH
    ensures SealedSubset(seal, Recorded(buf, flushed, s, l, lo, hi, gd))
    decreases hi - lo
  {
    hide TreeSpec.Node, Groups.SlotAt;
    if lo < hi { SealedRecorded(seal, buf, flushed, s, l, lo + 1, hi, gd); }
  }

  /** No group on the path of the deferred stem has been flushed. */
  lemma {:induction false} NothingFlushedTowards(
    flushed: set<Path>, store: Store, s: seq<Item>, n: Item, l: Stem, o: int, gd: nat)
    requires StoreIs(store, s, [n], l, o, gd) && FlushedAre(flushed, store)
    ensures forall d: nat :: d <= MAX_DEPTH ==> n.stem[..d] !in flushed && n.stem[..d] !in store
  {
    hide BuilderSpec.StoreIs;
    NotInStore(store, s, n, l, o, gd);
  }

  /** The left neighbour of the deferred item, or the item itself when it is the first. */
  ghost function TipOf(s: seq<Item>, n: Item): Stem {
    if s == [] then n.stem else s[|s| - 1].stem
  }

  /** Ungrouped: writing the nodes that were left open by the left neighbour closes its path. */
  lemma {:induction false} StoreUnwind(store: Store, s: seq<Item>, n: Item, hi: int)
    requires s != [] && Ascending(s + [n]) && StoreIs(store, s, [n], s[|s| - 1].stem, hi, 0)
    requires NextCPL(s, [n]) <= hi < MAX_DEPTH && AllSplit(s, s[|s| - 1].stem, NextCPL(s, [n]), hi, 0)
    ensures var after := Emitted(store, s, s[|s| - 1].stem, NextCPL(s, [n]), hi);
            StoreIs(after, s, [n], s[|s| - 1].stem, NextCPL(s, [n]), 0) && |after| == |store| + (hi - NextCPL(s, [n]))
  {
    hide TreeSpec.Node, TreeSpec.Under, TreeSpec.Ascending, BuilderSpec.NextCPL, BuilderSpec.Emitted;
    var l, c := s[|s| - 1].stem, NextCPL(s, [n]);
    forall d: nat | c < d <= hi ensures |Under(s, l[..d])| >= 2 && !Awaited(l[..d], [n]) {
      assert SplitsAt(s, l, d, 0);
      UnderNextPlain(s, n, d);
    }
    EmitCloses(store, s, [n], l, c, hi);
  }

  lemma {:induction false} UnderNextPlain(s: seq<Item>, n: Item, d: nat)
    requires s != [] && NextCPL(s, [n]) < d <= MAX_DEPTH
    ensures !Awaited(s[|s| - 1].stem[..d], [n])
  {
    AgreeIffCommonPrefix(s[|s| - 1].stem, n.stem, d);
  }

  lemma {:induction false} EmitCloses(store: Store, s: seq<Item>, next: seq<Item>, l: Stem, lo: int, hi: int)
    requires |next| <= 1 && StoreIs(store, s, next, l, hi, 0) && -1 <= lo <= hi < MAX_DEPTH
    requires forall d: nat :: lo < d <= hi ==> |Under(s, l[..d])| >= 2 && !Awaited(l[..d], next)
    ensures StoreIs(Emitted(store, s, l, lo, hi), s, next, l, lo, 0)
    ensures |Emitted(store, s, l, lo, hi)| == |store| + (hi - lo)
  {
    hide TreeSpec.Node, TreeSpec.Under, BuilderSpec.Emitted, BuilderSpec.Awaited, BuilderSpec.Stored;
    var after := Emitted(store, s, l, lo, hi);
    forall p: Path
      ensures p in after <==> p in store || (p <= l && lo < |p| <= hi)
      ensures p in after ==> after[p] == if p in store then store[p] else NodeAt(s, p, 0)
    {
      EmittedAt(store, s, l, lo, hi, p);
      if p <= l && lo < |p| <= hi {
        assert p == l[..|p|];
        assert |Under(s, p)| >= 2;
        assert p !in store;
      }
    }
    StoreClose(store, after, s, next, l, lo, hi, 0);
    forall d: nat | lo < d <= hi ensures l[..d] !in store { assert |l[..d]| <= hi; }
    EmittedCount(store, s, l, lo, hi);
  }

  lemma {:induction false} EmittedCount(store: Store, s: seq<Item>, l: Stem, lo: int, hi: int)
    requires -1 <= lo <= hi <= MAX_DEPTH && forall d: nat :: lo < d <= hi ==> l[..d] !in store
    ensures |Emitted(store, s, l, lo, hi)| == |store| + (hi - lo)
    decreases hi - lo
  {
    hide TreeSpec.Node;
    if lo < hi {
      EmittedCount(store, s, l, lo + 1, hi);
      EmittedAt(store, s, l, lo + 1, hi, l[..lo + 1]);
    }
  }

  /** Ungrouped: the stem node and the internal nodes written on the way up are exactly the new ones. */
  lemma {:induction false} StorePlaceUngrouped(store: Store, s: seq<Item>, n: Item, next: seq<Item>, lo: int)
    requires Ascending(s + [n]) && |next| <= 1 && Ascending(s + [n] + next)
    requires StoreIs(store, s, [n], TipOf(s, n), NextCPL(s, [n]), 0)
    requires PlaceDepth(s, n, next, 0) <= MAX_DEPTH && NextCPL(s + [n], next) <= lo < PlaceDepth(s, n, next, 0)
    ensures var t: int := PlaceDepth(s, n, next, 0);
            var after := Emitted(store[n.stem[..t] := StemNode(n.stem, n.entries)], s + [n], n.stem, lo, t - 1);
            StoreIs(after, s + [n], next, n.stem, lo, 0)
  {
    hide TreeSpec.Node, TreeSpec.Under, TreeSpec.Ascending, BuilderSpec.NextCPL, BuilderSpec.Emitted,
      BuilderSpec.StoreIs, BuilderSpec.NewPath, BuilderSpec.NodeAt, PlaceDepth;
    var t: int := PlaceDepth(s, n, next, 0);
    var f := s + [n];
    var mid := store[n.stem[..t] := StemNode(n.stem, n.entries)];
    var after := Emitted(mid, f, n.stem, lo, t - 1);
    NotInStore(store, s, n, TipOf(s, n), NextCPL(s, [n]), 0);
    forall p: Path
      ensures p in after <==> p in store || NewPath(s, n, next, p, lo, 0)
      ensures p in store && p in after ==> after[p] == store[p]
      ensures p in after && p !in store ==> after[p] == NodeAt(f, p, 0)
    {
      UngroupedAt(store, s, n, next, lo, p);
    }
    StorePlace(store, after, s, n, next, TipOf(s, n), lo, 0);
  }

  lemma {:induction false} PlaceCount(store: Store, f: seq<Item>, n: Item, lo: int, t: nat)
    requires forall d: nat :: d <= MAX_DEPTH ==> n.stem[..d] !in store
    requires -1 <= lo < t <= MAX_DEPTH
    ensures |Emitted(store[n.stem[..t] := StemNode(n.stem, n.entries)], f, n.stem, lo, t - 1)| == |store| + (t - lo)
  {
    hide BuilderSpec.Emitted;
    var mid := store[n.stem[..t] := StemNode(n.stem, n.entries)];
    forall d: nat | lo < d <= t - 1 ensures n.stem[..d] !in mid { assert |n.stem[..d]| != |n.stem[..t]|; }
    EmittedCount(mid, f, n.stem, lo, t - 1);
  }

  lemma {:induction false} UngroupedAt(store: Store, s: seq<Item>, n: Item, next: seq<Item>, lo: int, p: Path)
    requires Ascending(s + [n]) && |next| <= 1 && Ascending(s + [n] + next)
    requires forall d: nat :: d <= MAX_DEPTH ==> n.stem[..d] !in store
    requires PlaceDepth(s, n, next, 0) <= MAX_DEPTH && NextCPL(s + [n], next) <= lo < PlaceDepth(s, n, next, 0)
    ensures var t: int := PlaceDepth(s, n, next, 0);
            var after := Emitted(store[n.stem[..t] := StemNode(n.stem, n.entries)], s + [n], n.stem, lo, t - 1);
            && (p in after <==> p in store || NewPath(s, n, next, p, lo, 0))
            && (p in store && p in after ==> after[p] == store[p])
            && (p in after && p !in store ==> after[p] == NodeAt(s + [n], p, 0))
  {
    hide TreeSpec.Node, TreeSpec.Under, TreeSpec.Ascending, BuilderSpec.NextCPL, BuilderSpec.Emitted;
    var t: int := PlaceDepth(s, n, next, 0);
    EmittedAt(store[n.stem[..t] := StemNode(n.stem, n.entries)], s + [n], n.stem, lo, t - 1, p);
    PlaceFacts(s, n, next, 0);
    if p <= n.stem {
      assert p == n.stem[..|p|];
      if lo < |p| < t { assert SplitsAt(s + [n], n.stem, |p|, 0); }
    }
  }

  lemma {:induction false} GroupedAt(
    store: Store, after: Store, s: seq<Item>, n: Item, next: seq<Item>, top: int, p: Path, gd: nat)
    requires gd > 0 && Ascending(s + [n]) && |next| <= 1 && Ascending(s + [n] + next)
    requires forall d: nat :: d <= MAX_DEPTH ==> n.stem[..d] !in store
    requires PlaceDepth(s, n, next, gd) <= MAX_DEPTH && top <= NextCPL(s + [n], next)
    requires StoreGrown(store[n.stem[..PlaceDepth(s, n, next, gd)] := StemNode(n.stem, n.entries)], after,
                        s + [n], n.stem, Max(top, NextCPL(s + [n], next)), PlaceDepth(s, n, next, gd), gd)
    ensures p in after <==> p in store || NewPath(s, n, next, p, NextCPL(s + [n], next), gd)
    ensures p in store && p in after ==> after[p] == store[p]
    ensures p in after && p !in store ==> after[p] == NodeAt(s + [n], p, gd)
  {
    hide TreeSpec.Node, TreeSpec.Under, TreeSpec.Ascending, BuilderSpec.NextCPL;
    PlaceFacts(s, n, next, gd);
    if p <= n.stem { assert p == n.stem[..|p|]; }
  }

  lemma {:induction false} NotInStore(store: Store, s: seq<Item>, n: Item, l: Stem, o: int, gd: nat)
    requires StoreIs(store, s, [n], l, o, gd)
    ensures forall d: nat :: d <= MAX_DEPTH ==> n.stem[..d] !in store
  {
    hide BuilderSpec.Stored, BuilderSpec.NodeAt;
    forall d: nat | d <= MAX_DEPTH ensures n.stem[..d] !in store {
      assert Awaited(n.stem[..d], [n]);
    }
  }

  /** Grouped: the stem node and the flushed groups are exactly the new ones. */
  lemma {:induction false} StorePlaceGrouped(
    store: Store, after: Store, s: seq<Item>, n: Item, next: seq<Item>, top: int, gd: nat)
    requires gd > 0 && Ascending(s + [n]) && |next| <= 1 && Ascending(s + [n] + next)
    requires StoreIs(store, s, [n], TipOf(s, n), NextCPL(s, [n]), gd)
    requires PlaceDepth(s, n, next, gd) <= MAX_DEPTH
    requires top <= NextCPL(s + [n], next)
    requires StoreGrown(store[n.stem[..PlaceDepth(s, n, next, gd)] := StemNode(n.stem, n.entries)], after,
                        s + [n], n.stem, Max(top, NextCPL(s + [n], next)), PlaceDepth(s, n, next, gd), gd)
    ensures StoreIs(after, s + [n], next, n.stem, NextCPL(s + [n], next), gd)
  {
    hide TreeSpec.Node, TreeSpec.Under, TreeSpec.Ascending, BuilderSpec.NextCPL, BuilderSpec.StoreIs,
      BuilderSpec.StoreGrown, BuilderSpec.NewPath, BuilderSpec.NodeAt, PlaceDepth;
    var f, c := s + [n], NextCPL(s + [n], next);
    NotInStore(store, s, n, TipOf(s, n), NextCPL(s, [n]), gd);
    PlaceFacts(s, n, next, gd);
    forall p: Path
      ensures p in after <==> p in store || NewPath(s, n, next, p, c, gd)
      ensures p in store && p in after ==> after[p] == store[p]
      ensures p in after && p !in store ==> after[p] == NodeAt(f, p, gd)
    {
      GroupedAt(store, after, s, n, next, top, p, gd);
    }
    StorePlace(store, after, s, n, next, TipOf(s, n), c, gd);
  }

  lemma {:induction false} NothingToUnwind(
    seal: map<nat, set<nat>>, buf: Buckets, flushed: set<Path>, store: Store, s: seq<Item>, l: Stem, gd: nat)
    ensures SealedAgree(seal, buf, s, l, -1, -1, gd)
    ensures gd > 0 ==> Recorded(buf, flushed, s, l, -1, -1, gd) == buf
    ensures Emitted(store, s, l, -1, -1) == store
    ensures AllSplit(s, l, -1, -1, gd)
  {
  }

  lemma {:induction false} NoNext(f: seq<Item>, next: seq<Item>)
    requires next == []
    ensures NextCPL(f, next) == -1
  {
  }

  /** Grouped: after n has travelled up to depth stop, everything is ready for the flush. */
  lemma {:induction false} PlacedBuffers(
    seal: map<nat, set<nat>>, buf: Buckets, flushed: set<Path>, store: Store,
    s: seq<Item>, n: Item, next: seq<Item>, stop: int, t: nat, gd: nat)
    requires gd > 0 && -1 <= stop < t <= MAX_DEPTH && RestBuckets(buf, s, n, gd) && SealedSubset(seal, buf)
    requires StoreIs(store, s, [n], TipOf(s, n), NextCPL(s, [n]), gd) && FlushedAre(flushed, store)
    ensures var after := store[n.stem[..t] := StemNode(n.stem, n.entries)];
      var r := Recorded(buf, flushed, s + [n], n.stem, stop, t, gd);
      && BucketsAre(r, s + [n], n.stem, stop, t, MAX_DEPTH, gd)
      && SealedSubset(seal, r)
      && FlushedAre(flushed, after)
      && |after| == |store| + 1
      && forall d: nat :: d < t ==> n.stem[..d] !in after
  {
    hide TreeSpec.Node, TreeSpec.Under, BuilderSpec.Slots, BuilderSpec.Recorded, SealedSubset,
      BuilderSpec.StoreIs, BuilderSpec.BucketsAre;
    var f := s + [n];
    BucketsPlace(buf, s, n, t, gd);
    NothingFlushedTowards(flushed, store, s, n, TipOf(s, n), NextCPL(s, [n]), gd);
    LastOnPath(f);
    forall d: nat | d <= MAX_DEPTH ensures Under(f, n.stem[..d]) != [] { assert Reaches(f, f[|f| - 1].stem, d); }
    BucketsRecord(buf, flushed, f, n.stem, stop, t, t, gd);
    SealedRecorded(seal, buf, flushed, f, n.stem, stop, t, gd);
    forall d: nat | d < t ensures n.stem[..d] != n.stem[..t] { assert |n.stem[..d]| == d; }
  }

  lemma {:induction false} RestFromFlush(buf: Buckets, s: seq<Item>, m: Item, lo: int, hi: int, top: int, gd: nat)
    requires s != [] && Ascending(s + [m]) && gd > 0
    requires BucketsAre(buf, s, s[|s| - 1].stem, lo, hi, top, gd)
    requires NextCPL(s, [m]) <= lo < top + gd && 0 <= NextCPL(s, [m]) < hi && Collapses(hi, gd)
    requires top <= NextCPL(s, [m]) < top + gd && StepDepth(top, gd)
    ensures RestBuckets(buf, s, m, gd)
  {
    hide BuilderSpec.Slots;
    if top < 0 { ModUnique(top + gd, gd, 0, top + gd); }
    StepDepthUp(top, gd);
    BucketsRest(buf, s, m, lo, hi, top, gd);
  }

  /** With only the first item deferred, nothing is stored or buffered. */
  lemma {:induction false} FirstItem(n: Item, gd: nat)
    ensures StoreIs(map[], [], [n], n.stem, -1, gd)
    ensures RestBuckets(map[], [], n, gd)
    ensures TargetDepth(0, gd) <= MAX_DEPTH
    ensures AllSplit([], n.stem, -1, -1, gd)
  {
    forall p: Path ensures !(Stored([] + [n], p, gd) && !Awaited(p, [n])) {
      assert [] + [n] == [n];
      UnderSnoc([], n, p);
    }
    if gd > 0 { ModUnique(0, gd, 0, 0); }
  }

  lemma {:induction false} AllSplitUpTo(s: seq<Item>, l: Stem, lo: int, hi: int, mid: int, gd: nat)
    requires AllSplit(s, l, lo, hi, gd) && mid <= hi
    ensures AllSplit(s, l, lo, mid, gd)
  {
  }

  /** Every branch point of neighbouring stems leaves room for the extended depth below it. */
  ghost predicate Fits(s: seq<Item>, gd: nat) {
    |s| <= 1 || (Fits(s[..|s| - 1], gd) && TargetDepth(NextCPL(s[..|s| - 1], [s[|s| - 1]]) + 1, gd) <= MAX_DEPTH)
  }

  lemma {:induction false} FedFacts(f: seq<Item>, item: Item, gd: nat)
    ensures (f + [item])[..|f|] == f && (f + [item])[|f|] == item
    ensures Fits(f + [item], gd) <==> Fits(f, gd) && (f == [] || TargetDepth(NextCPL(f, [item]) + 1, gd) <= MAX_DEPTH)
    ensures f != [] && TargetDepth(NextCPL(f[..|f| - 1], [f[|f| - 1]]) + 1, gd) <= MAX_DEPTH ==>
      (PlaceDepth(f[..|f| - 1], f[|f| - 1], [item], gd) > MAX_DEPTH <==>
          TargetDepth(NextCPL(f, [item]) + 1, gd) > MAX_DEPTH)
  {
    hide Groups.TargetDepth;
    if f != [] {
      assert f[..|f| - 1] + [f[|f| - 1]] == f;
    }
  }

  // ----- the finished trie

  /** The store holds exactly the nodes of the tree over s. */
  ghost predicate FinalStore(store: Store, s: seq<Item>, gd: nat) {
    forall p: Path ::
      && (p in store <==> Stored(s, p, gd))
      && (p in store ==> store[p] == NodeAt(s, p, gd))
  }

  lemma {:induction false} FinalFromStoreIs(store: Store, s: seq<Item>, l: Stem, gd: nat)
    requires StoreIs(store, s, [], l, -1, gd)
    ensures FinalStore(store, s, gd)
  {
    hide BuilderSpec.NodeAt, BuilderSpec.Stored;
    assert s + [] == s;
  }

  lemma {:induction false} EmptyTrie(gd: nat)
    ensures FinalStore(map[], [], gd) && Root([], gd) == Zero
  {
  }

  lemma {:induction false} LastDepth(s: seq<Item>, n: Item, gd: nat)
    ensures NextCPL(s + [n], []) == -1
    ensures PlaceDepth(s, n, [], gd) == TargetDepth(NextCPL(s, [n]) + 1, gd)
    ensures s + [n] + [] == s + [n]
  {
    hide Groups.TargetDepth;
  }

  /** A slot towards l above its frontier is in no bucket, hence not sealed. */
  lemma {:induction false} SealedAbove(
    seal: map<nat, set<nat>>, buf: Buckets, s: seq<Item>, l: Stem, stop: int, hi: int, gd: nat)
    requires BucketsAre(buf, s, l, stop, hi, MAX_DEPTH, gd) && SealedSubset(seal, buf)
    ensures SealedAgree(seal, buf, s, l, -1, stop, gd)
  {
    hide TreeSpec.Node, TreeSpec.Under, Groups.SlotAt;
    forall b: nat | GroupDepthAt(b, gd) && b + gd <= stop && b in seal && SlotAt(l, b, gd) in seal[b] ensures false {
      assert SlotAt(l, b, gd) in Bucket(buf, b).Keys;
      ChildOnPath(l, b, 0, gd);
    }
  }

  lemma {:induction false} RecordRest(
    seal: map<nat, set<nat>>, buf: Buckets, flushed: set<Path>, store: Store, s: seq<Item>, l: Stem, stop: int,
        hi: nat, gd: nat)
    requires gd > 0 && -1 <= stop < hi <= MAX_DEPTH && OnPath(s, l)
    requires BucketsAre(buf, s, l, stop, hi, MAX_DEPTH, gd) && SealedSubset(seal, buf) && FlushedAre(flushed, store)
    requires forall d: nat :: -1 < d < hi ==> l[..d] !in store
    ensures BucketsAre(Recorded(buf, flushed, s, l, -1, stop, gd), s, l, -1, hi, MAX_DEPTH, gd)
    ensures SealedSubset(seal, Recorded(buf, flushed, s, l, -1, stop, gd))
  {
    hide TreeSpec.Node, TreeSpec.Under, BuilderSpec.Slots, BuilderSpec.Recorded, SealedSubset,
      BuilderSpec.BucketsAre;
    SealedRecorded(seal, buf, flushed, s, l, -1, stop, gd);
    forall d: nat | d <= MAX_DEPTH ensures Under(s, l[..d]) != [] { assert Reaches(s, l, d); }
    BucketsRecord(buf, flushed, s, l, -1, stop, hi, gd);
  }

  /** Ungrouped: writing what is still open closes the whole path. */
  lemma {:induction false} EmitRest(store: Store, s: seq<Item>, l: Stem, stop: int)
    requires -1 <= stop < MAX_DEPTH && StoreIs(store, s, [], l, stop, 0) && AllSplit(s, l, -1, stop, 0)
    ensures StoreIs(Emitted(store, s, l, -1, stop), s, [], l, -1, 0)
    ensures |Emitted(store, s, l, -1, stop)| == |store| + (stop + 1)
  {
    hide TreeSpec.Node, TreeSpec.Under, BuilderSpec.Emitted, BuilderSpec.StoreIs;
    forall d: nat | -1 < d <= stop ensures |Under(s, l[..d])| >= 2 && !Awaited(l[..d], []) {
      assert SplitsAt(s, l, d, 0);
    }
    EmitCloses(store, s, [], l, -1, stop);
  }

  lemma {:induction false} NoBucketsLeft(
    buf: Buckets, stems: map<nat, Stem>, s: seq<Item>, l: Stem, lo: int, hi: int, top: int, gd: nat)
    requires BucketsAre(buf, s, l, lo, hi, top, gd) && BucketsShape(buf, stems, l, gd) && top < 0
    ensures buf == map[]
  {
    hide BuilderSpec.Slots;
    assert forall b: nat :: GroupDepthAt(b, gd) ==> Bucket(buf, b) == map[];
    assert buf.Keys == {};
  }
}
