/** Specification of the streaming builder: which nodes the finished store holds, what a group buffer
holds at each stage, and how the stages follow from one another. Everything here is on values. */
module BuilderSpec {
  import opened Stems
  import opened TreeSpec
  import opened Groups

  datatype GroupChild = GroupChild(slot: nat, hash: Hash)

  /** A serialized trie node, before its byte encoding. */
  datatype TrieNode =
    | StemNode(stem: Stem, entries: seq<Entry>)
    | InternalNode(left: Hash, right: Hash)
    | GroupNode(groupDepth: nat, children: seq<GroupChild>)

  type Store = map<Path, TrieNode>
  type Buckets = map<nat, map<nat, Hash>>

  function Bucket(buf: Buckets, b: nat): map<nat, Hash> {
    if b in buf then buf[b] else map[]
  }

  /** The children of a bucket in slot order, slots below n. */
  function ChildList(m: map<nat, Hash>, n: nat): seq<GroupChild> {
    if n == 0 then []
    else ChildList(m, n - 1) + if n - 1 in m then [GroupChild(n - 1, m[n - 1])] else []
  }

  // ----- the finished store

  /** Path p carries a stored node: it is a storable depth, something lies under it, and no lone
  stem above it has already absorbed it. */
  ghost predicate Stored(s: seq<Item>, p: Path, gd: nat) {
    && |p| <= MAX_DEPTH
    && Collapses(|p|, gd)
    && Under(s, p) != []
    && (|Under(s, p)| == 1 ==> forall k :: 0 <= k < |p| && Collapses(k, gd) ==> |Under(s, p[..k])| >= 2)
  }

  /** The node stored at p. */
  ghost function NodeAt(s: seq<Item>, p: Path, gd: nat): TrieNode {
    var u := Under(s, p);
    if |u| == 1 then StemNode(u[0].stem, u[0].entries)
    else if gd == 0 then InternalNode(Node(s, p + [false], gd), Node(s, p + [true], gd))
    else GroupNode(gd, ChildList(FullSlots(s, p, gd), Pow2(gd)))
  }

  /** Store while `next` (nothing, or the deferred item) is still to be placed and the nodes on the
  path of l down to depth `open` are still to be written. */
  ghost predicate StoreIs(store: Store, s: seq<Item>, next: seq<Item>, l: Stem, open: int, gd: nat) {
    forall p: Path ::
      && (p in store <==> Stored(s + next, p, gd) && !Awaited(p, next) && !(p <= l && |p| <= open))
      && (p in store ==> store[p] == NodeAt(s + next, p, gd))
  }

  ghost predicate Awaited(p: Path, next: seq<Item>) {
    next != [] && p <= next[0].stem
  }

  /** Common prefix of the last item of s with the next one; -1 if there is none. */
  ghost function NextCPL(s: seq<Item>, next: seq<Item>): (c: int)
    ensures -1 <= c <= MAX_DEPTH
  {
    if s == [] || next == [] then -1 else CommonPrefixLen(s[|s| - 1].stem, next[0].stem)
  }

  function Max(a: int, b: int): int { if a < b then b else a }

  /** On the path of the last stem, exactly the prefixes shared with its left neighbour are shared. */
  lemma {:induction false} CountOnPath(s: seq<Item>, n: Item, d: nat)
    requires Ascending(s + [n]) && d <= MAX_DEPTH
    ensures |Under(s + [n], n.stem[..d])| >= 1
    ensures |Under(s + [n], n.stem[..d])| >= 2 <==> d <= NextCPL(s, [n])
  {
    UnderSnoc(s, n, n.stem[..d]);
    if s != [] {
      AscendingInit(s, n);
      NeighbourIsClosest(s, n.stem, d);
    }
  }

  lemma {:induction false} AscendingInit(s: seq<Item>, n: Item)
    requires Ascending(s + [n])
    ensures Ascending(s)
    ensures s != [] ==> Before(s[|s| - 1].stem, n.stem)
  {
    assert forall i :: 0 <= i < |s| ==> (s + [n])[i] == s[i];
    if s != [] { assert (s + [n])[|s|] == n; }
  }

  /** With f = s + [n] placed and `next` to come, the stored paths towards n below the common prefix
  with `next` are exactly the storable depths down to the target depth. */
  lemma {:induction false} StoredOnPath(s: seq<Item>, n: Item, next: seq<Item>, d: nat, gd: nat)
    requires Ascending(s + [n]) && |next| <= 1 && Ascending(s + [n] + next)
    requires NextCPL(s + [n], next) < d <= MAX_DEPTH
    ensures Stored(s + [n] + next, n.stem[..d], gd) <==>
            Collapses(d, gd) && d <= TargetDepth(Max(NextCPL(s, [n]), NextCPL(s + [n], next)) + 1, gd)
    ensures Under(s + [n] + next, n.stem[..d]) == Under(s + [n], n.stem[..d])
    ensures !Awaited(n.stem[..d], next)
  {
    var m := Max(NextCPL(s, [n]), NextCPL(s + [n], next));
    var p := n.stem[..d];
    UnderNext(s, n, next, d);
    PathCount(s, n, next, d);
    forall k | 0 <= k < d ensures |Under(s + [n] + next, p[..k])| >= 2 <==> k <= m {
      assert p[..k] == n.stem[..k];
      PathCount(s, n, next, k);
    }
    StoredFromCounts(s + [n] + next, p, m, gd);
  }

  lemma {:induction false} StoredFromCounts(g: seq<Item>, p: Path, m: int, gd: nat)
    requires |p| <= MAX_DEPTH && m >= -1 && Under(g, p) != []
    requires |Under(g, p)| >= 2 <==> |p| <= m
    requires forall k :: 0 <= k < |p| ==> (|Under(g, p[..k])| >= 2 <==> k <= m)
    ensures Stored(g, p, gd) <==> Collapses(|p|, gd) && |p| <= TargetDepth(m + 1, gd)
  {
    var t := TargetDepth(m + 1, gd);
    if |p| > t { assert |Under(g, p[..t])| < 2; }
  }

  lemma {:induction false} PathCount(s: seq<Item>, n: Item, next: seq<Item>, k: nat)
    requires Ascending(s + [n]) && |next| <= 1 && Ascending(s + [n] + next) && k <= MAX_DEPTH
    ensures |Under(s + [n] + next, n.stem[..k])| >= 1
    ensures |Under(s + [n] + next, n.stem[..k])| >= 2 <==> k <= Max(NextCPL(s, [n]), NextCPL(s + [n], next))
  {
    CountOnPath(s, n, k);
    UnderNext(s, n, next, k);
  }

  lemma {:induction false} UnderNext(s: seq<Item>, n: Item, next: seq<Item>, k: nat)
    requires Ascending(s + [n]) && |next| <= 1 && Ascending(s + [n] + next) && k <= MAX_DEPTH
    ensures Under(s + [n] + next, n.stem[..k]) ==
            Under(s + [n], n.stem[..k]) + (if k <= NextCPL(s + [n], next) then next else [])
    ensures k > NextCPL(s + [n], next) ==> !Awaited(n.stem[..k], next)
    ensures k <= NextCPL(s + [n], next) ==> next != [] && n.stem[..k] == next[0].stem[..k]
  {
    if next == [] {
      assert s + [n] + next == s + [n];
    } else {
      assert next == [next[0]];
      UnderSnoc(s + [n], next[0], n.stem[..k]);
      AgreeIffCommonPrefix(n.stem, next[0].stem, k);
    }
  }

  /** Away from the last stem and from the next one, placing the next item changes nothing. */
  lemma {:induction false} StoredElsewhere(s: seq<Item>, n: Item, next: seq<Item>, p: Path, gd: nat)
    requires Ascending(s + [n]) && |next| <= 1 && Ascending(s + [n] + next)
    requires !(p <= n.stem) && !Awaited(p, next)
    ensures Stored(s + [n] + next, p, gd) <==> Stored(s + [n], p, gd)
  {
    var f := s + [n];
    if next == [] {
      assert f + next == f;
    } else {
      var m := next[0];
      assert next == [m];
      NodeFrame(f, m, p, gd);
      if Under(f, p) != [] {
        forall k | 0 <= k < |p| ensures |Under(f + [m], p[..k])| >= 2 <==> |Under(f, p[..k])| >= 2 {
          SharedAbove(s, n, m, p, k);
        }
      }
    }
  }

  lemma {:induction false} SharedAbove(s: seq<Item>, n: Item, m: Item, p: Path, k: nat)
    requires Ascending(s + [n]) && Ascending(s + [n] + [m])
    requires !(p <= n.stem) && k < |p| && Under(s + [n], p) != []
    ensures |Under(s + [n] + [m], p[..k])| >= 2 <==> |Under(s + [n], p[..k])| >= 2
  {
    var q := p[..k];
    UnderSnoc(s, n, p);
    UnderAntitone(s, q, p);
    UnderSnoc(s, n, q);
    UnderSnoc(s + [n], m, q);
    if q <= m.stem && !(q <= n.stem) {
      AscendingInit(s + [n], m);
      SamePrefixContiguous(s, n, m, q);
    }
  }

  /** Items sharing a prefix are contiguous: if an earlier item and m share q, so does n between. */
  lemma {:induction false} SamePrefixContiguous(s: seq<Item>, n: Item, m: Item, q: Path)
    requires Ascending(s + [n]) && Before(n.stem, m.stem) && Under(s, q) != [] && q <= m.stem
    ensures q <= n.stem
  {
    assert q == m.stem[..|q|];
    UnderSnoc(s, n, q);
    NeighbourIsClosest(s + [n], m.stem, |q|);
    AgreeIffCommonPrefix(n.stem, m.stem, |q|);
  }

  lemma {:induction false} NodeAtFrame(f: seq<Item>, next: seq<Item>, p: Path, gd: nat)
    requires |next| <= 1 && !Awaited(p, next) && Under(f, p) != []
    ensures Under(f + next, p) == Under(f, p)
    ensures NodeAt(f + next, p, gd) == NodeAt(f, p, gd)
  {
    hide ChildList;
    if next == [] {
      assert f + next == f;
    } else {
      var m := next[0];
      assert next == [m];
      NodeFrame(f, m, p, gd);
      NodeFrame(f, m, p + [false], gd);
      NodeFrame(f, m, p + [true], gd);
      forall t: nat ensures Under(f + [m], Child(p, t, gd)) == Under(f, Child(p, t, gd))
                         && Node(f + [m], Child(p, t, gd), gd) == Node(f, Child(p, t, gd), gd)
      {
        NodeFrame(f, m, Child(p, t, gd), gd);
      }
      assert FullSlots(f + [m], p, gd) == FullSlots(f, p, gd);
    }
  }

  /** Placing n: if, besides what was there, exactly the storable paths towards n in (lo, target] were
  written, the store is the one expected after n, with the path down to lo open. */
  lemma {:induction false} StorePlace(
    before: Store, after: Store, s: seq<Item>, n: Item, next: seq<Item>, l: Stem, lo: int, gd: nat)
    requires Ascending(s + [n]) && |next| <= 1 && Ascending(s + [n] + next)
    requires StoreIs(before, s, [n], l, NextCPL(s, [n]), gd) && (s != [] ==> l == s[|s| - 1].stem)
    requires NextCPL(s + [n], next) <= lo
    requires forall p: Path :: p in after <==> p in before || NewPath(s, n, next, p, lo, gd)
    requires forall p: Path :: p in before && p in after ==> after[p] == before[p]
    requires forall p: Path :: p in after && p !in before ==> after[p] == NodeAt(s + [n], p, gd)
    ensures StoreIs(after, s + [n], next, n.stem, lo, gd)
  {
    hide TreeSpec.Node, TreeSpec.Under;
    var f := s + [n];
    forall p: Path
      ensures p in after <==> Stored(f + next, p, gd) && !Awaited(p, next) && !(p <= n.stem && |p| <= lo)
      ensures p in after ==> after[p] == NodeAt(f + next, p, gd)
    {
      StorePlaceAt(before, s, n, next, l, lo, p, gd);
      if p in after { NodeAtFrame(f, next, p, gd); }
    }
  }

  ghost predicate NewPath(s: seq<Item>, n: Item, next: seq<Item>, p: Path, lo: int, gd: nat) {
    p <= n.stem && lo < |p| <= TargetDepth(Max(NextCPL(s, [n]), NextCPL(s + [n], next)) + 1, gd) && Collapses(|p|, gd)
  }

  lemma {:induction false} StorePlaceAt(
    before: Store, s: seq<Item>, n: Item, next: seq<Item>, l: Stem, lo: int, p: Path, gd: nat)
    requires Ascending(s + [n]) && |next| <= 1 && Ascending(s + [n] + next)
    requires StoreIs(before, s, [n], l, NextCPL(s, [n]), gd) && (s != [] ==> l == s[|s| - 1].stem)
    requires NextCPL(s + [n], next) <= lo
    ensures (p in before || NewPath(s, n, next, p, lo, gd)) <==>
            Stored(s + [n] + next, p, gd) && !Awaited(p, next) && !(p <= n.stem && |p| <= lo)
    ensures p in before || NewPath(s, n, next, p, lo, gd) ==> Under(s + [n], p) != [] && !Awaited(p, next)
  {
    hide TreeSpec.Node, TreeSpec.Under;
    assert Awaited(p, [n]) <==> p <= n.stem;
    if p <= n.stem {
      assert p == n.stem[..|p|];
      StorePlaceOnPath(s, n, next, lo, |p|, gd);
    } else {
      assert !(p <= l && |p| <= NextCPL(s, [n])) by {
        if p <= l && |p| <= NextCPL(s, [n]) { AgreeIffCommonPrefix(l, n.stem, |p|); }
      }
      StorePlaceOffPath(s, n, next, p, gd);
    }
  }

  lemma {:induction false} StorePlaceOnPath(s: seq<Item>, n: Item, next: seq<Item>, lo: int, d: nat, gd: nat)
    requires Ascending(s + [n]) && |next| <= 1 && Ascending(s + [n] + next) && d <= MAX_DEPTH
    requires NextCPL(s + [n], next) <= lo
    ensures NewPath(s, n, next, n.stem[..d], lo, gd) <==>
            Stored(s + [n] + next, n.stem[..d], gd) && !Awaited(n.stem[..d], next) && d > lo
    ensures Under(s + [n], n.stem[..d]) != []
    ensures d > lo ==> !Awaited(n.stem[..d], next)
  {
    hide TreeSpec.Under, TreeSpec.Ascending, Stored, NextCPL, Groups.TargetDepth;
    CountOnPath(s, n, d);
    if d > lo { StoredOnPath(s, n, next, d, gd); }
  }

  lemma {:induction false} StorePlaceOffPath(s: seq<Item>, n: Item, next: seq<Item>, p: Path, gd: nat)
    requires Ascending(s + [n]) && |next| <= 1 && Ascending(s + [n] + next) && !(p <= n.stem)
    ensures Stored(s + [n], p, gd) <==> Stored(s + [n] + next, p, gd) && !Awaited(p, next)
    ensures Stored(s + [n], p, gd) ==> Under(s + [n], p) != [] && !Awaited(p, next)
  {
    if Under(s + [n], p) != [] {
      AwaitedMeansAbove(s, n, next, p);
    }
    if !Awaited(p, next) { StoredElsewhere(s, n, next, p, gd); }
  }

  /** A path with something placed under it and not towards n is not towards the next item either. */
  lemma {:induction false} AwaitedMeansAbove(s: seq<Item>, n: Item, next: seq<Item>, p: Path)
    requires Ascending(s + [n]) && |next| <= 1 && Ascending(s + [n] + next)
    requires !(p <= n.stem) && Under(s + [n], p) != []
    ensures !Awaited(p, next)
  {
    if Awaited(p, next) {
      assert next == [next[0]];
      UnderSnoc(s, n, p);
      AscendingInit(s + [n], next[0]);
      SamePrefixContiguous(s, n, next[0], p);
    }
  }

  /** Writing the open nodes on the path of l in (lo, hi] closes the path down to lo. */
  lemma {:induction false} StoreClose(
    before: Store, after: Store, s: seq<Item>, next: seq<Item>, l: Stem, lo: int, hi: int, gd: nat)
    requires |next| <= 1 && StoreIs(before, s, next, l, hi, gd) && -1 <= lo <= hi <= MAX_DEPTH
    requires forall d: nat :: lo < d <= hi && Collapses(d, gd) ==> |Under(s, l[..d])| >= 2 && !Awaited(l[..d], next)
    requires forall p: Path :: p in after <==> p in before || (p <= l && lo < |p| <= hi && Collapses(|p|, gd))
    requires forall p: Path :: p in after ==> after[p] == if p in before then before[p] else NodeAt(s, p, gd)
    ensures StoreIs(after, s, next, l, lo, gd)
  {
    hide TreeSpec.Node, TreeSpec.Under;
    forall p: Path
      ensures p in after <==> Stored(s + next, p, gd) && !Awaited(p, next) && !(p <= l && |p| <= lo)
      ensures p in after ==> after[p] == NodeAt(s + next, p, gd)
    {
      if p <= l && lo < |p| <= hi && Collapses(|p|, gd) {
        assert p == l[..|p|];
        NodeAtFrame(s, next, p, gd);
      }
    }
  }

  /** The internal nodes on the path of l at depths in (lo, hi], deepest first, added to a store. */
  ghost function Emitted(store: Store, s: seq<Item>, l: Stem, lo: int, hi: int): Store
    requires -1 <= lo && hi <= MAX_DEPTH
    decreases hi - lo
  {
    if lo >= hi then store
    else Emitted(store, s, l, lo + 1, hi)
      [l[..lo + 1] := InternalNode(Node(s, l[..lo + 1] + [false], 0), Node(s, l[..lo + 1] + [true], 0))]
  }

  lemma {:induction false} EmittedAt(store: Store, s: seq<Item>, l: Stem, lo: int, hi: int, p: Path)
    requires -1 <= lo && hi <= MAX_DEPTH
    ensures p in Emitted(store, s, l, lo, hi) <==> p in store || (p <= l && lo < |p| <= hi)
    ensures p <= l && lo < |p| <= hi ==>
              Emitted(store, s, l, lo, hi)[p] == InternalNode(Node(s, p + [false], 0), Node(s, p + [true], 0))
    ensures p in store && !(p <= l && lo < |p| <= hi) ==> Emitted(store, s, l, lo, hi)[p] == store[p]
    decreases hi - lo
  {
    hide TreeSpec.Node, TreeSpec.Under;
    if lo < hi {
      EmittedAt(store, s, l, lo + 1, hi, p);
      assert p <= l && |p| == lo + 1 ==> p == l[..lo + 1];
    }
  }

  lemma {:induction false} EmittedChain(store: Store, s: seq<Item>, l: Stem, lo: int, mid: int, hi: int)
    requires -1 <= lo <= mid <= hi <= MAX_DEPTH
    ensures Emitted(Emitted(store, s, l, mid, hi), s, l, lo, mid) == Emitted(store, s, l, lo, hi)
    decreases mid - lo
  {
    if lo < mid { EmittedChain(store, s, l, lo + 1, mid, hi); }
  }

  // ----- group buffers

  /** Children of the group at depth b on the path of l that are known while l is being placed: all
  that do not lead towards l, and the one that does once its hash was recorded, which happens for
  depths in (lo, hi]. */
  ghost function Slots(s: seq<Item>, l: Stem, b: nat, lo: int, hi: int, gd: nat): map<nat, Hash>
    requires b <= MAX_DEPTH
  {
    map t: nat | t < Pow2(gd) && Under(s, Child(l[..b], t, gd)) != [] &&
        (Child(l[..b], t, gd) <= l ==> lo < b + gd <= hi)
      :: Node(s, Child(l[..b], t, gd), gd)
  }

  predicate GroupDepthAt(b: nat, gd: nat) {
    gd > 0 && b % gd == 0 && b + gd <= MAX_DEPTH
  }

  /** Every bucket up to depth `top` holds the known children, deeper buckets are empty. */
  ghost predicate BucketsAre(buf: Buckets, s: seq<Item>, l: Stem, lo: int, hi: int, top: int, gd: nat) {
    forall b: nat :: GroupDepthAt(b, gd) ==>
      Bucket(buf, b) == if b <= top then Slots(s, l, b, lo, hi, gd) else map[]
  }

  /** A bucket exists only at a boundary, is never empty, and has a stem on its own path. */
  ghost predicate BucketsShape(buf: Buckets, stems: map<nat, Stem>, l: Stem, gd: nat) {
    && buf.Keys == stems.Keys
    && forall b :: b in buf ==> GroupDepthAt(b, gd) && buf[b] != map[] && stems[b][..b] == l[..b]
  }

  lemma {:induction false} ShapeUpsert(
    buf: Buckets, stems: map<nat, Stem>, l: Stem, b: nat, bucket: map<nat, Hash>, gd: nat)
    requires BucketsShape(buf, stems, l, gd) && GroupDepthAt(b, gd) && bucket != map[]
    ensures BucketsShape(buf[b := bucket], stems[b := l], l, gd)
  {
    hide GroupDepthAt;
  }

  /** Effect of recording the child of depth d on the path of l. */
  ghost function RecordOne(buf: Buckets, flushed: set<Path>, l: Stem, d: nat, h: Hash, gd: nat): Buckets
    requires 0 < gd <= d <= MAX_DEPTH
  {
    var b := d - gd;
    if l[..b] in flushed then buf else buf[b := Bucket(buf, b)[SlotAt(l, b, gd) := h]]
  }

  /** Effect of recording, deepest first, every boundary depth in (lo, hi] on the path of l. */
  ghost function Recorded(buf: Buckets, flushed: set<Path>, s: seq<Item>, l: Stem, lo: int, hi: int, gd: nat): Buckets
    requires -1 <= lo && hi <= MAX_DEPTH && gd > 0
    decreases hi - lo
  {
    if lo >= hi then buf
    else
      var r := Recorded(buf, flushed, s, l, lo + 1, hi, gd);
      if (lo + 1) % gd == 0 && lo + 1 >= gd
      then RecordOne(r, flushed, l, lo + 1, Node(s, l[..lo + 1], gd), gd)
      else r
  }

  lemma {:induction false} RecordedChain(
    buf: Buckets, flushed: set<Path>, s: seq<Item>, l: Stem, lo: int, mid: int, hi: int, gd: nat)
    requires -1 <= lo <= mid <= hi <= MAX_DEPTH && gd > 0
    ensures Recorded(Recorded(buf, flushed, s, l, mid, hi, gd), flushed, s, l, lo, mid, gd) ==
            Recorded(buf, flushed, s, l, lo, hi, gd)
    decreases mid - lo
  {
    if lo < mid { RecordedChain(buf, flushed, s, l, lo + 1, mid, hi, gd); }
  }

  /** Recording touches each bucket on the path once. */
  lemma {:induction false} RecordedAt(
    buf: Buckets, flushed: set<Path>, s: seq<Item>, l: Stem, lo: int, hi: int, gd: nat, b: nat)
    requires -1 <= lo && hi <= MAX_DEPTH && GroupDepthAt(b, gd)
    ensures Bucket(Recorded(buf, flushed, s, l, lo, hi, gd), b) ==
      if lo < b + gd <= hi && l[..b] !in flushed
      then Bucket(buf, b)[SlotAt(l, b, gd) := Node(s, l[..b + gd], gd)]
      else Bucket(buf, b)
    decreases hi - lo
  {
    hide TreeSpec.Node, TreeSpec.Under, Groups.SlotAt, RecordOne;
    if lo < hi {
      RecordedAt(buf, flushed, s, l, lo + 1, hi, gd, b);
      var r := Recorded(buf, flushed, s, l, lo + 1, hi, gd);
      if b + gd == lo + 1 { BoundaryStep(b, gd); }
      if lo + 1 >= gd { RecordOneAt(r, flushed, l, lo + 1, Node(s, l[..lo + 1], gd), gd, b); }
    }
  }

  lemma {:induction false} RecordOneAt(buf: Buckets, flushed: set<Path>, l: Stem, d: nat, h: Hash, gd: nat, b: nat)
    requires 0 < gd <= d <= MAX_DEPTH
    ensures Bucket(RecordOne(buf, flushed, l, d, h, gd), b) ==
      if b + gd == d && l[..b] !in flushed then Bucket(buf, b)[SlotAt(l, b, gd) := h] else Bucket(buf, b)
  {
  }

  /** The hash a list of children puts into slot i. */
  function LeafAt(cs: seq<GroupChild>, i: nat): Hash {
    if cs == [] then Zero
    else if cs[|cs| - 1].slot == i then cs[|cs| - 1].hash
    else LeafAt(cs[..|cs| - 1], i)
  }

  lemma {:induction false} LeafAtChildList(m: map<nat, Hash>, n: nat, i: nat)
    ensures LeafAt(ChildList(m, n), i) == if i in m && i < n then m[i] else Zero
  {
    if n > 0 {
      LeafAtChildList(m, n - 1, i);
      assert n - 1 !in m ==> ChildList(m, n) == ChildList(m, n - 1);
      assert n - 1 in m ==> ChildList(m, n)[..|ChildList(m, n)| - 1] == ChildList(m, n - 1);
    }
  }

  /** Recording values that are already there, or under paths already flushed, changes nothing. */
  lemma {:induction false} RecordedNoop(
    buf: Buckets, flushed: set<Path>, store: Store, s: seq<Item>, l: Stem, lo: int, hi: int, gd: nat)
    requires -1 <= lo && hi <= MAX_DEPTH && gd > 0
    requires forall d: nat :: lo < d <= hi && d % gd == 0 && d >= gd ==>
               AlreadyRecorded(buf, flushed, store, s, l, d, gd)
    ensures Recorded(buf, flushed, s, l, lo, hi, gd) == buf
    decreases hi - lo
  {
    hide TreeSpec.Node, SlotStored, Groups.SlotAt;
    if lo < hi {
      RecordedNoop(buf, flushed, store, s, l, lo + 1, hi, gd);
      var d := lo + 1;
      if d % gd == 0 && d >= gd {
        assert AlreadyRecorded(buf, flushed, store, s, l, d, gd);
        var b := d - gd;
        if l[..b] !in flushed { assert buf[b] == Bucket(buf, b)[SlotAt(l, b, gd) := Node(s, l[..d], gd)]; }
      }
    }
  }

  /** The hash of the node at depth d on the path of l is already in its slot: in the group node written for
  its flushed parent, or in the parent's bucket. */
  ghost predicate AlreadyRecorded(
    buf: Buckets, flushed: set<Path>, store: Store, s: seq<Item>, l: Stem, d: nat, gd: nat)
    requires 0 < gd <= d <= MAX_DEPTH
  {
    var b := d - gd;
    || (l[..b] in flushed && SlotStored(store, s, l, b, gd))
    || (b in buf && SlotAt(l, b, gd) in buf[b] && buf[b][SlotAt(l, b, gd)] == Node(s, l[..d], gd))
  }

  /** The stored group at depth b on the path of l holds the hash of its child towards l. */
  ghost predicate SlotStored(store: Store, s: seq<Item>, l: Stem, b: nat, gd: nat)
    requires b + gd <= MAX_DEPTH
  {
    && l[..b] in store && store[l[..b]].GroupNode?
    && LeafAt(store[l[..b]].children, SlotAt(l, b, gd)) == Node(s, l[..b + gd], gd)
  }

  // ----- how the buffers move from one stage to the next

  /** The flushed-path guard holds exactly the group paths in the store. */
  ghost predicate FlushedAre(flushed: set<Path>, store: Store) {
    forall p: Path :: p in flushed <==> p in store && store[p].GroupNode?
  }

  /** A node on the path of l that does not stand for a lone stem. */
  ghost predicate Splits(s: seq<Item>, p: Path, gd: nat) {
    |Under(s, p)| >= 2 || !Collapses(|p|, gd)
  }

  /** Between placements, nothing is buffered below the common prefix with the deferred stem. */
  lemma {:induction false} RestIsShallow(buf: Buckets, s: seq<Item>, n: Item, b: nat, gd: nat)
    requires Ascending(s + [n]) && GroupDepthAt(b, gd)
    requires Bucket(buf, b) == Slots(s, n.stem, b, MAX_DEPTH, MAX_DEPTH, gd) && Bucket(buf, b) != map[]
    ensures b <= NextCPL(s, [n]) && n.stem[..b] == s[|s| - 1].stem[..b]
  {
    hide TreeSpec.Node, TreeSpec.Under;
    var t :| t in Bucket(buf, b);
    UnderAntitone(s, n.stem[..b], Child(n.stem[..b], t, gd));
    AscendingInit(s, n);
    NeighbourIsClosest(s, n.stem, b);
    AgreeIffCommonPrefix(s[|s| - 1].stem, n.stem, b);
  }

  /** Re-traversing what is left of the last placed stem l records nothing new: each record falls on
  a flushed group that was written with the same hash in that slot, or on a buffered slot that holds it. */
  lemma {:induction false} RetraversalIsRecorded(
    buf: Buckets, flushed: set<Path>, store: Store, s: seq<Item>, n: Item, b: nat, gd: nat)
    requires s != [] && Ascending(s + [n]) && GroupDepthAt(b, gd)
    requires Bucket(buf, b) == Slots(s, n.stem, b, MAX_DEPTH, MAX_DEPTH, gd)
    requires StoreIs(store, s, [n], s[|s| - 1].stem, NextCPL(s, [n]), gd) && FlushedAre(flushed, store)
    requires NextCPL(s, [n]) < b + gd && |Under(s, s[|s| - 1].stem[..b + gd])| >= 2
    ensures AlreadyRecorded(buf, flushed, store, s, s[|s| - 1].stem, b + gd, gd)
  {
    hide TreeSpec.Node, TreeSpec.Under, Slots, StoreIs, TreeSpec.Ascending;
    var l := s[|s| - 1].stem;
    UnderAntitone(s, l[..b], l[..b + gd]);
    if b > NextCPL(s, [n]) {
      FlushedAbove(store, s, n, b, gd);
      SlotIsStored(store, s, n, b, gd);
    } else {
      RecordedBelow(buf, s, n, b, gd);
    }
  }

  lemma {:induction false} RecordedBelow(buf: Buckets, s: seq<Item>, n: Item, b: nat, gd: nat)
    requires s != [] && GroupDepthAt(b, gd) && b <= NextCPL(s, [n]) < b + gd
    requires Bucket(buf, b) == Slots(s, n.stem, b, MAX_DEPTH, MAX_DEPTH, gd)
    requires Under(s, s[|s| - 1].stem[..b + gd]) != []
    ensures b in buf && SlotAt(s[|s| - 1].stem, b, gd) in buf[b]
    ensures buf[b][SlotAt(s[|s| - 1].stem, b, gd)] == Node(s, s[|s| - 1].stem[..b + gd], gd)
  {
    hide TreeSpec.Node, TreeSpec.Under;
    var l := s[|s| - 1].stem;
    AgreeIffCommonPrefix(l, n.stem, b);
    AgreeIffCommonPrefix(l, n.stem, b + gd);
    ChildOnPath(l, b, 0, gd);
    assert Child(n.stem[..b], SlotAt(l, b, gd), gd) == l[..b + gd];
    assert SlotAt(l, b, gd) in Bucket(buf, b);
  }

  lemma {:induction false} FlushedAbove(store: Store, s: seq<Item>, n: Item, b: nat, gd: nat)
    requires s != [] && Ascending(s + [n]) && gd > 0 && b % gd == 0
    requires StoreIs(store, s, [n], s[|s| - 1].stem, NextCPL(s, [n]), gd)
    requires NextCPL(s, [n]) < b <= MAX_DEPTH && |Under(s, s[|s| - 1].stem[..b])| >= 2
    ensures s[|s| - 1].stem[..b] in store && store[s[|s| - 1].stem[..b]].GroupNode?
  {
    var p := s[|s| - 1].stem[..b];
    AgreeIffCommonPrefix(s[|s| - 1].stem, n.stem, b);
    UnderSnoc(s, n, p);
    assert Stored(s + [n], p, gd) && !Awaited(p, [n]);
  }

  /** The group written at depth b on the path of the last placed stem has all its children. */
  lemma {:induction false} GroupIsStored(store: Store, s: seq<Item>, n: Item, b: nat, gd: nat)
    requires s != [] && Ascending(s + [n]) && gd > 0 && b % gd == 0
    requires StoreIs(store, s, [n], s[|s| - 1].stem, NextCPL(s, [n]), gd)
    requires NextCPL(s, [n]) < b <= MAX_DEPTH && |Under(s, s[|s| - 1].stem[..b])| >= 2
    ensures var p := s[|s| - 1].stem[..b];
            p in store && store[p] == GroupNode(gd, ChildList(FullSlots(s, p, gd), Pow2(gd)))
  {
    hide TreeSpec.Node, TreeSpec.Under, TreeSpec.Ascending, ChildList, Stored, Groups.FullSlots;
    var p := s[|s| - 1].stem[..b];
    FlushedAbove(store, s, n, b, gd);
    AgreeIffCommonPrefix(s[|s| - 1].stem, n.stem, b);
    NodeAtFrame(s, [n], p, gd);
  }

  /** The slot towards l of a complete group holds the hash of the child there, or nothing if there is none. */
  lemma {:induction false} SlotTowards(s: seq<Item>, l: Stem, b: nat, gd: nat)
    requires b + gd <= MAX_DEPTH
    ensures LeafAt(ChildList(FullSlots(s, l[..b], gd), Pow2(gd)), SlotAt(l, b, gd))
         == if Under(s, l[..b + gd]) == [] then Zero else Node(s, l[..b + gd], gd)
  {
    hide TreeSpec.Node, TreeSpec.Under, LeafAt, ChildList, Groups.SlotAt, Groups.Child;
    ChildOnPath(l, b, 0, gd);
    LeafAtChildList(FullSlots(s, l[..b], gd), Pow2(gd), SlotAt(l, b, gd));
  }

  /** A group that was flushed holds the hash of every child that is recorded again. */
  lemma {:induction false} SlotIsStored(store: Store, s: seq<Item>, n: Item, b: nat, gd: nat)
    requires s != [] && Ascending(s + [n]) && GroupDepthAt(b, gd)
    requires StoreIs(store, s, [n], s[|s| - 1].stem, NextCPL(s, [n]), gd)
    requires NextCPL(s, [n]) < b && |Under(s, s[|s| - 1].stem[..b + gd])| >= 2
    ensures SlotStored(store, s, s[|s| - 1].stem, b, gd)
  {
    hide TreeSpec.Node, TreeSpec.Under, TreeSpec.Ascending, LeafAt, ChildList, StoreIs, NextCPL, Groups.SlotAt,
      Groups.FullSlots;
    var l := s[|s| - 1].stem;
    UnderAntitone(s, l[..b], l[..b + gd]);
    GroupIsStored(store, s, n, b, gd);
    SlotTowards(s, l, b, gd);
  }

  /** Placing n leaves all buckets as they were; only the slots towards n are still unrecorded. */
  lemma {:induction false} BucketsPlace(buf: Buckets, s: seq<Item>, n: Item, t: int, gd: nat)
    requires BucketsAre(buf, s, n.stem, MAX_DEPTH, MAX_DEPTH, MAX_DEPTH, gd)
    ensures BucketsAre(buf, s + [n], n.stem, t, t, MAX_DEPTH, gd)
  {
    hide TreeSpec.Node, TreeSpec.Under;
    forall b: nat | GroupDepthAt(b, gd)
      ensures Slots(s, n.stem, b, MAX_DEPTH, MAX_DEPTH, gd) == Slots(s + [n], n.stem, b, t, t, gd)
    {
      forall k: nat ensures !(Child(n.stem[..b], k, gd) <= n.stem) ==>
                              && Under(s + [n], Child(n.stem[..b], k, gd)) == Under(s, Child(n.stem[..b], k, gd))
                              && Node(s + [n], Child(n.stem[..b], k, gd), gd) == Node(s, Child(n.stem[..b], k, gd), gd)
      {
        if !(Child(n.stem[..b], k, gd) <= n.stem) { NodeFrame(s, n, Child(n.stem[..b], k, gd), gd); }
      }
    }
  }

  /** Recording the slot towards l completes it. */
  lemma {:induction false} SlotsRecord(s: seq<Item>, l: Stem, b: nat, lo: int, mid: int, hi: int, gd: nat)
    requires GroupDepthAt(b, gd) && lo <= mid <= hi && Under(s, l[..b + gd]) != []
    ensures Slots(s, l, b, lo, hi, gd) ==
      if lo < b + gd <= mid then Slots(s, l, b, mid, hi, gd)[SlotAt(l, b, gd) := Node(s, l[..b + gd], gd)]
      else Slots(s, l, b, mid, hi, gd)
  {
    hide TreeSpec.Node, TreeSpec.Under;
    forall t: nat | t < Pow2(gd)
      ensures Child(l[..b], t, gd) <= l <==> t == SlotAt(l, b, gd)
    {
      ChildOnPath(l, b, t, gd);
    }
    ChildOnPath(l, b, 0, gd);
  }

  lemma {:induction false} BucketsRecord(
    buf: Buckets, flushed: set<Path>, s: seq<Item>, l: Stem, lo: int, mid: int, hi: int, gd: nat)
    requires -1 <= lo <= mid <= hi && mid <= MAX_DEPTH && gd > 0
    requires BucketsAre(buf, s, l, mid, hi, MAX_DEPTH, gd)
    requires forall d: nat :: d <= MAX_DEPTH ==> Under(s, l[..d]) != []
    requires forall d: nat :: d < mid ==> l[..d] !in flushed
    ensures BucketsAre(Recorded(buf, flushed, s, l, lo, mid, gd), s, l, lo, hi, MAX_DEPTH, gd)
  {
    hide TreeSpec.Node, TreeSpec.Under;
    var r := Recorded(buf, flushed, s, l, lo, mid, gd);
    forall b: nat | GroupDepthAt(b, gd) ensures Bucket(r, b) == Slots(s, l, b, lo, hi, gd) {
      RecordedAt(buf, flushed, s, l, lo, mid, gd, b);
      SlotsRecord(s, l, b, lo, mid, hi, gd);
    }
  }

  /** Once the slot towards l is recorded, the bucket holds every child. */
  lemma {:induction false} SlotsFull(s: seq<Item>, l: Stem, b: nat, lo: int, hi: int, gd: nat)
    requires b <= MAX_DEPTH && lo < b + gd <= hi
    ensures Slots(s, l, b, lo, hi, gd) == FullSlots(s, l[..b], gd)
  {
  }

  /** Flushing the deepest bucket b and cascading its hash into the parent slot. */
  ghost function Cascaded(buf: Buckets, l: Stem, b: nat, h: Hash, gd: nat): Buckets
    requires GroupDepthAt(b, gd)
  {
    var r := buf - {b};
    if b < gd then r else r[b - gd := Bucket(r, b - gd)[SlotAt(l, b - gd, gd) := h]]
  }

  lemma {:induction false} BucketsFlush(buf: Buckets, s: seq<Item>, l: Stem, lo: int, hi: int, b: nat, gd: nat)
    requires GroupDepthAt(b, gd) && -1 <= lo && b <= hi && (b >= gd ==> Under(s, l[..b]) != [])
    requires BucketsAre(buf, s, l, lo, hi, b, gd)
    ensures BucketsAre(Cascaded(buf, l, b, Node(s, l[..b], gd), gd), s, l, if lo < b then lo else b - 1, hi, b - gd, gd)
  {
    forall x: nat | GroupDepthAt(x, gd)
      ensures Bucket(Cascaded(buf, l, b, Node(s, l[..b], gd), gd), x) ==
              if x <= b - gd then Slots(s, l, x, if lo < b then lo else b - 1, hi, gd) else map[]
    {
      BucketFlushAt(buf, s, l, lo, hi, b, x, gd);
    }
  }

  lemma {:induction false} BucketFlushAt(buf: Buckets, s: seq<Item>, l: Stem, lo: int, hi: int, b: nat, x: nat, gd: nat)
    requires GroupDepthAt(b, gd) && GroupDepthAt(x, gd) && b <= hi && (b >= gd ==> Under(s, l[..b]) != [])
    requires Bucket(buf, x) == if x <= b then Slots(s, l, x, lo, hi, gd) else map[]
    ensures Bucket(Cascaded(buf, l, b, Node(s, l[..b], gd), gd), x) ==
            if x <= b - gd then Slots(s, l, x, if lo < b then lo else b - 1, hi, gd) else map[]
  {
    hide TreeSpec.Node, TreeSpec.Under, Cascaded, Slots, Groups.SlotAt;
    CascadedAt(buf, l, b, Node(s, l[..b], gd), x, gd);
    if x < b {
      BoundariesApart(x, b, gd);
      if x == b - gd {
        SlotsKeep(s, l, x, lo, hi, gd);
      } else {
        SlotsUnrecorded(s, l, x, lo, if lo < b then lo else b - 1, hi, gd);
      }
    }
  }

  lemma {:induction false} CascadedAt(buf: Buckets, l: Stem, b: nat, h: Hash, x: nat, gd: nat)
    requires GroupDepthAt(b, gd)
    ensures Bucket(Cascaded(buf, l, b, h, gd), x) ==
      if x == b then map[]
      else if x + gd == b then Bucket(buf, x)[SlotAt(l, x, gd) := h]
      else Bucket(buf, x)
  {
  }

  lemma {:induction false} ShapeCascade(buf: Buckets, stems: map<nat, Stem>, l: Stem, b: nat, h: Hash, gd: nat)
    requires BucketsShape(buf, stems, l, gd) && b in buf
    ensures GroupDepthAt(b, gd)
    ensures BucketsShape(Cascaded(buf, l, b, h, gd),
        if b < gd then stems - {b} else (stems - {b})[b - gd := stems[b]], l, gd)
  {
    var r := Cascaded(buf, l, b, h, gd);
    if b >= gd {
      BoundaryStep(b, gd);
      assert SlotAt(l, b - gd, gd) in r[b - gd];
      assert stems[b][..b - gd] == stems[b][..b][..b - gd] == l[..b][..b - gd] == l[..b - gd];
    }
  }

  lemma {:induction false} SlotsKeep(s: seq<Item>, l: Stem, x: nat, lo: int, hi: int, gd: nat)
    requires GroupDepthAt(x, gd) && x + gd <= hi && Under(s, l[..x + gd]) != []
    ensures Slots(s, l, x, x + gd - 1, hi, gd)
        == Slots(s, l, x, lo, hi, gd)[SlotAt(l, x, gd) := Node(s, l[..x + gd], gd)]
    ensures lo < x + gd ==> Slots(s, l, x, lo, hi, gd) == Slots(s, l, x, x + gd - 1, hi, gd)
  {
    hide TreeSpec.Node, TreeSpec.Under;
    forall t: nat | t < Pow2(gd)
      ensures Child(l[..x], t, gd) <= l <==> t == SlotAt(l, x, gd)
    {
      ChildOnPath(l, x, t, gd);
    }
    ChildOnPath(l, x, 0, gd);
  }

  lemma {:induction false} SlotsUnrecorded(s: seq<Item>, l: Stem, x: nat, lo: int, lo': int, hi: int, gd: nat)
    requires x <= MAX_DEPTH && (lo < x + gd <==> lo' < x + gd)
    ensures Slots(s, l, x, lo, hi, gd) == Slots(s, l, x, lo', hi, gd)
  {
  }

  /** After the flush at a transition to `m`, the buffers are those of the resting state. */
  lemma {:induction false} BucketsRest(
    buf: Buckets, s: seq<Item>, m: Item, lo: int, hi: int, top: int, gd: nat)
    requires s != [] && Ascending(s + [m]) && gd > 0
    requires BucketsAre(buf, s, s[|s| - 1].stem, lo, hi, top, gd)
    requires NextCPL(s, [m]) <= lo < top + gd && NextCPL(s, [m]) < hi && hi % gd == 0
    requires 0 <= top <= NextCPL(s, [m]) && top % gd == 0
    ensures BucketsAre(buf, s, m.stem, MAX_DEPTH, MAX_DEPTH, MAX_DEPTH, gd)
  {
    hide TreeSpec.Node, TreeSpec.Under;
    forall b: nat | GroupDepthAt(b, gd)
      ensures Bucket(buf, b) == Slots(s, m.stem, b, MAX_DEPTH, MAX_DEPTH, gd)
    {
      if b <= top {
        RestBucketShallow(s, m, b, lo, hi, top, gd);
      } else {
        BoundariesApart(top, b, gd);
        RestBucketDeep(s, m, b, gd);
      }
    }
  }

  lemma {:induction false} RestBucketDeep(s: seq<Item>, m: Item, b: nat, gd: nat)
    requires s != [] && Ascending(s + [m]) && NextCPL(s, [m]) < b <= MAX_DEPTH
    ensures Slots(s, m.stem, b, MAX_DEPTH, MAX_DEPTH, gd) == map[]
  {
    hide TreeSpec.Node, TreeSpec.Under;
    AscendingInit(s, m);
    NeighbourIsClosest(s, m.stem, b);
    forall t: nat | t < Pow2(gd) ensures Under(s, Child(m.stem[..b], t, gd)) == [] {
      UnderAntitone(s, m.stem[..b], Child(m.stem[..b], t, gd));
    }
  }

  lemma {:induction false} RestBucketShallow(s: seq<Item>, m: Item, b: nat, lo: int, hi: int, top: nat, gd: nat)
    requires s != [] && Ascending(s + [m]) && GroupDepthAt(b, gd) && hi % gd == 0 && top % gd == 0
    requires b <= top <= NextCPL(s, [m]) <= lo < top + gd && NextCPL(s, [m]) < hi
    ensures Slots(s, s[|s| - 1].stem, b, lo, hi, gd) == Slots(s, m.stem, b, MAX_DEPTH, MAX_DEPTH, gd)
  {
    hide TreeSpec.Node, TreeSpec.Under;
    AgreeIffCommonPrefix(s[|s| - 1].stem, m.stem, b);
    AgreeIffCommonPrefix(s[|s| - 1].stem, m.stem, b + gd);
    if b + gd <= NextCPL(s, [m]) {
      SlotsShared(s, s[|s| - 1].stem, m.stem, b, lo, hi, gd);
    } else {
      BoundariesApart(b, hi, gd);
      if b < top { BoundariesApart(b, top, gd); }
      AscendingInit(s, m);
      NeighbourIsClosest(s, m.stem, b + gd);
      SlotsDiverging(s, s[|s| - 1].stem, m.stem, b, lo, hi, gd);
    }
  }

  lemma {:induction false} SlotsShared(s: seq<Item>, n: Stem, m: Stem, b: nat, lo: int, hi: int, gd: nat)
    requires b + gd <= MAX_DEPTH && n[..b] == m[..b] && n[..b + gd] == m[..b + gd] && b + gd <= lo
    ensures Slots(s, n, b, lo, hi, gd) == Slots(s, m, b, MAX_DEPTH, MAX_DEPTH, gd)
  {
    hide TreeSpec.Node, TreeSpec.Under;
    forall t: nat ensures Child(m[..b], t, gd) <= n <==> Child(m[..b], t, gd) <= m {
      OnPathIff(Child(m[..b], t, gd), n);
      OnPathIff(Child(m[..b], t, gd), m);
    }
  }

  lemma {:induction false} OnPathIff(q: Path, l: Stem)
    requires |q| <= MAX_DEPTH
    ensures q <= l <==> q == l[..|q|]
  {
  }

  lemma {:induction false} SlotsDiverging(s: seq<Item>, n: Stem, m: Stem, b: nat, lo: int, hi: int, gd: nat)
    requires b + gd <= MAX_DEPTH && n[..b] == m[..b] && Under(s, m[..b + gd]) == [] && lo < b + gd <= hi
    ensures Slots(s, n, b, lo, hi, gd) == Slots(s, m, b, MAX_DEPTH, MAX_DEPTH, gd)
  {
    hide TreeSpec.Node, TreeSpec.Under;
    forall t: nat | Child(m[..b], t, gd) <= m ensures Under(s, Child(m[..b], t, gd)) == [] {
      OnPathIff(Child(m[..b], t, gd), m);
    }
  }

  // ----- group nodes written by a flush

  /** after is before plus the group nodes on the path of l at boundary depths in (lo, hi). */
  ghost predicate StoreGrown(before: Store, after: Store, s: seq<Item>, l: Stem, lo: int, hi: int, gd: nat)
    requires gd > 0
  {
    forall p: Path ::
      && (p in after <==> p in before || (p <= l && lo < |p| < hi && |p| % gd == 0))
      && (p in after ==> after[p] == if p in before then before[p] else NodeAt(s, p, gd))
  }

  lemma {:induction false} GrowNothing(store: Store, s: seq<Item>, l: Stem, lo: int, b: nat, hi: int, gd: nat)
    requires gd > 0 && b % gd == 0 && b <= lo && hi <= b + gd
    ensures StoreGrown(store, store, s, l, lo, hi, gd)
  {
    hide NodeAt;
    forall p: Path | lo < |p| < hi ensures |p| % gd != 0 { NoBoundaryInside(b, |p|, gd); }
  }

  lemma {:induction false} GrowStep(
    before: Store, after: Store, s: seq<Item>, l: Stem, lo: int, b: nat, hi: int, gd: nat)
    requires gd > 0 && b % gd == 0 && b <= MAX_DEPTH && b - gd <= lo < b < hi
    requires StoreGrown(before, after, s, l, b, hi, gd) && l[..b] !in before
    ensures StoreGrown(before, after[l[..b] := NodeAt(s, l[..b], gd)], s, l, lo, hi, gd)
    ensures l[..b] !in after
  {
    hide NodeAt;
    forall p: Path | p <= l && lo < |p| <= b && |p| % gd == 0 ensures p == l[..b] {
      if |p| < b { BoundariesApart(|p|, b, gd); }
    }
  }

  lemma {:induction false} GrowSkip(
    before: Store, after: Store, s: seq<Item>, l: Stem, lo: int, b: nat, hi: int, gd: nat)
    requires gd > 0 && b % gd == 0 && b - gd <= lo < b && hi <= b
    requires StoreGrown(before, after, s, l, b, hi, gd)
    ensures StoreGrown(before, after, s, l, lo, hi, gd)
  {
    hide NodeAt;
    forall p: Path | lo < |p| < hi ensures |p| % gd != 0 {
      if |p| % gd == 0 { BoundariesApart(|p|, b, gd); }
    }
  }

  /** Below the target depth of the last stem no bucket is in use. */
  lemma {:induction false} SlotsBelowTarget(s: seq<Item>, l: Stem, b: nat, lo: int, hi: nat, gd: nat)
    requires hi <= b <= MAX_DEPTH && gd > 0 && Under(s, l[..b]) != [] && |Under(s, l[..hi])| == 1
    requires GroupDepthAt(b, gd) && Under(s, l[..b + gd]) != []
    ensures Slots(s, l, b, lo, hi, gd) == map[]
  {
    forall t: nat | t < Pow2(gd) && Under(s, Child(l[..b], t, gd)) != [] ensures Child(l[..b], t, gd) <= l {
      LonePath(s, l[..hi], Child(l[..b], t, gd), l[..b + gd]);
    }
  }

  /** If one item lies under q, two longer paths of equal length with something under them agree. */
  lemma {:induction false} LonePath(s: seq<Item>, q: Path, p: Path, p': Path)
    requires q <= p && q <= p' && |p| == |p'| && |Under(s, q)| == 1 && Under(s, p) != [] && Under(s, p') != []
    ensures p == p'
  {
    UnderMembers(s, q, p);
    UnderMembers(s, q, p');
  }

  lemma {:induction false} UnderMembers(s: seq<Item>, q: Path, p: Path)
    requires q <= p && |Under(s, q)| == 1 && Under(s, p) != []
    ensures p <= Under(s, q)[0].stem
  {
    var last := s[|s| - 1];
    var t := s[..|s| - 1];
    if p <= last.stem {
      assert q <= last.stem;
      assert Under(t, q) == [];
    } else {
      UnderAntitone(t, q, p);
      UnderMembers(t, q, p);
    }
  }
}
