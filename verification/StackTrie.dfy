/** The streaming builder: one forward pass over ascending stems, a stack of pending left hashes, and,
in grouped mode, buffers of group children that are flushed when their subtree is complete. */
module StackTrie {
  import opened Stems
  import opened TreeSpec
  import opened Groups
  import opened BuilderSpec
  import opened GroupNodes
  import opened BuilderSteps

  /** Writes serialized nodes under their paths and counts the writes. */
  class TrieNodeWriter {
    var store: Store
    var nodes: nat

    constructor ()
      ensures store == map[] && nodes == 0
    {
      store, nodes := map[], 0;
    }

    method WriteNode(path: Path, node: TrieNode)
      modifies this
      ensures store == old(store)[path := node]
      ensures nodes == old(nodes) + 1
    {
      store := store[path := node];
      nodes := nodes + 1;
    }
  }

  class StreamingBuilder {
    const groupDepth: nat
    const w: TrieNodeWriter?
    const stack: array<Hash>
    const occupied: array<bool>
    const isRight: array<bool>
    const stemBits: array<Stem>

    var groupBuf: Buckets
    var groupBufSealed: map<nat, set<nat>>
    var groupStemAtBoundary: map<nat, Stem>
    var flushedPaths: set<Path>
    var rootGroupHash: Hash
    var rootGroupHashSet: bool

    var hasPrev: bool
    var prevHash: Hash
    var prevStem: Stem
    var prevLeftCPL: int
    var prevEntries: seq<Entry>

    /** Everything fed so far; the last item is deferred. */
    ghost var fed: seq<Item>
    /** Depth of the deepest pending hash. */
    ghost var frontier: int

    ghost function WriterFrame(): set<object> {
      if w == null then {} else {w}
    }

    ghost predicate Grouped() { w != null && groupDepth > 0 }
    ghost predicate Ungrouped() { w != null && groupDepth == 0 }

    /** Fixed buffers; no pending hash is ever a right child. */
    ghost predicate Shape()
      reads isRight
    {
      && stack.Length == occupied.Length == isRight.Length == stemBits.Length == MAX_DEPTH
      && occupied != isRight
      && forall d :: 0 <= d < MAX_DEPTH ==> !isRight[d]
    }

    /** While the node at depth `depth` on the path of stem is in flight, exactly the non-empty left
    siblings above it are pending, each with its finished hash. */
    ghost predicate PendingBelow(placed: seq<Item>, stem: Stem, depth: nat)
      reads stack, occupied
      requires stack.Length == occupied.Length == MAX_DEPTH
    {
      forall d :: 0 <= d < MAX_DEPTH ==>
        && (occupied[d] <==> d < depth && stem[d] && Under(placed, stem[..d] + [false]) != [])
        && (occupied[d] ==> stack[d] == Node(placed, stem[..d] + [false], groupDepth))
    }

    /** After a stem was placed: the finished left child at depth stop + 1 is pending, and above it
    exactly the non-empty left siblings on the path of stem. With stop == -1 the root is finished. */
    ghost predicate StackAt(placed: seq<Item>, stem: Stem, stop: int)
      reads stack, occupied, stemBits
      requires stack.Length == occupied.Length == stemBits.Length == MAX_DEPTH
    {
      && -1 <= stop < MAX_DEPTH
      && (stop >= 0 ==> !stem[stop] && stemBits[stop] == stem)
      && (stop == -1 && placed != [] ==> stack[0] == Node(placed, [], groupDepth))
      && forall d :: 0 <= d < MAX_DEPTH ==>
        && (occupied[d] <==> d == stop || (d < stop && stem[d] && Under(placed, stem[..d] + [false]) != []))
        && (occupied[d] ==> stack[d] == Node(placed, stem[..d] + [false], groupDepth))
    }

    /** A cascade has put the hash of a written group into slot t of boundary b. */
    ghost predicate IsSealed(b: nat, t: nat)
      reads this`groupBufSealed
    {
      b in groupBufSealed && t in groupBufSealed[b]
    }

    /** Records a hash at a boundary depth as a child of the parent group, unless the parent group was
    flushed or the slot was sealed by a cascade. */
    method RecordGroupChild(childDepth: nat, hash: Hash, stem: Stem)
      requires 0 < groupDepth <= childDepth <= MAX_DEPTH && childDepth % groupDepth == 0
      requires w != null ==> BucketsShape(groupBuf, groupStemAtBoundary, stem, groupDepth)
      modifies this`groupBuf, this`groupStemAtBoundary
      ensures w == null || IsSealed(childDepth - groupDepth, SlotAt(stem, childDepth - groupDepth, groupDepth)) ==>
        groupBuf == old(groupBuf) && groupStemAtBoundary == old(groupStemAtBoundary)
      ensures w != null && !IsSealed(childDepth - groupDepth, SlotAt(stem, childDepth - groupDepth, groupDepth)) ==>
        groupBuf == RecordOne(old(groupBuf), flushedPaths, stem, childDepth, hash, groupDepth)
      ensures w != null ==> BucketsShape(groupBuf, groupStemAtBoundary, stem, groupDepth)
    {
      hide TreeSpec.Node, Groups.SlotAt, BuilderSpec.BucketsShape;
      if w == null { return; }
      var parentBoundary := childDepth - groupDepth;
      BoundaryStep(childDepth, groupDepth);
      assert GroupDepthAt(parentBoundary, groupDepth);
      hide BuilderSpec.GroupDepthAt;
      var slot := SlotFromBits(stem, parentBoundary);
      if stem[..parentBoundary] in flushedPaths { return; }
      if parentBoundary in groupBufSealed && slot in groupBufSealed[parentBoundary] {
        return;
      }
      var bucket := if parentBoundary in groupBuf then groupBuf[parentBoundary] else map[];
      bucket := bucket[slot := hash];
      assert slot in bucket;
      ShapeUpsert(groupBuf, groupStemAtBoundary, stem, parentBoundary, bucket, groupDepth);
      groupBuf := groupBuf[parentBoundary := bucket];
      groupStemAtBoundary := groupStemAtBoundary[parentBoundary := stem];
    }

    /** Reads groupDepth bits of a stem as a slot number. */
    method SlotFromBits(stem: Stem, boundary: nat) returns (slot: nat)
      requires boundary + groupDepth <= MAX_DEPTH
      ensures slot == SlotAt(stem, boundary, groupDepth)
    {
      slot := 0;
      for i := 0 to groupDepth
        invariant slot == SlotOf(stem[boundary..boundary + i])
      {
        assert stem[boundary..boundary + i + 1][..i] == stem[boundary..boundary + i];
        slot := 2 * slot + if stem[boundary + i] then 1 else 0;
      }
    }

    /** The grouped part of one upward step: a hash at a boundary depth is recorded. */
    method RecordAt(
      d: nat, hash: Hash, stem: Stem, ghost placed: seq<Item>, ghost floor: int, ghost buf: Buckets, ghost hi: nat)
      requires 0 < d <= hi <= MAX_DEPTH && -1 <= floor < d && hash == Node(placed, stem[..d], groupDepth)
      requires Grouped() ==> groupBuf == Recorded(buf, flushedPaths, placed, stem, d, hi, groupDepth)
      requires Grouped() ==> BucketsShape(groupBuf, groupStemAtBoundary, stem, groupDepth)
      requires Grouped() ==> SealedAgree(groupBufSealed, groupBuf, placed, stem, floor, d, groupDepth)
      modifies this`groupBuf, this`groupStemAtBoundary
      ensures Grouped() ==> groupBuf == Recorded(buf, flushedPaths, placed, stem, d - 1, hi, groupDepth)
      ensures Grouped() ==> BucketsShape(groupBuf, groupStemAtBoundary, stem, groupDepth)
      ensures Grouped() ==> SealedAgree(groupBufSealed, groupBuf, placed, stem, floor, d - 1, groupDepth)
    {
      hide TreeSpec.Node, Groups.SlotAt, BuilderSpec.BucketsShape, BuilderSpec.RecordOne;
      if groupDepth > 0 && d % groupDepth == 0 && d >= groupDepth {
        ghost var before := groupBuf;
        BoundaryStep(d, groupDepth);
        assert GroupDepthAt(d - groupDepth, groupDepth);
        hide BuilderSpec.GroupDepthAt;
        RecordGroupChild(d, hash, stem);
        ghost var b0, t0 := d - groupDepth, SlotAt(stem, d - groupDepth, groupDepth);
        if Grouped() && IsSealed(b0, t0) { SealedIsRecorded(before, flushedPaths, stem, d, hash, groupDepth); }
        forall b: nat ensures Grouped() && b + groupDepth < d ==> Bucket(groupBuf, b) == Bucket(before, b) {
          if Grouped() { RecordOneAt(before, flushedPaths, stem, d, hash, groupDepth, b); }
        }
      }
    }

    /** The combining part of one upward step: the pending left sibling, or the empty hash, and the
    current right child become the hash of their parent. */
    method CombineAt(pd: nat, hash: Hash, stem: Stem, ghost placed: seq<Item>) returns (r: Hash)
      requires Shape() && pd < MAX_DEPTH && (occupied[pd] || stem[pd])
      requires hash == Node(placed, stem[..pd + 1], groupDepth) && PendingBelow(placed, stem, pd + 1)
      requires Reaches(placed, stem, pd) && SplitsAt(placed, stem, pd, groupDepth)
      modifies occupied, WriterFrame()
      ensures Shape() && PendingBelow(placed, stem, pd)
      ensures r == Node(placed, stem[..pd], groupDepth)
      ensures Grouped() ==> w.store == old(w.store) && w.nodes == old(w.nodes)
      ensures Ungrouped() ==> w.nodes == old(w.nodes) + 1
      ensures Ungrouped() ==> w.store == old(w.store)[stem[..pd] :=
        InternalNode(Node(placed, stem[..pd] + [false], 0), Node(placed, stem[..pd] + [true], 0))]
    {
      TakeSnoc(stem, pd);
      NodeSplits(placed, stem[..pd], groupDepth);
      if occupied[pd] {
        // Combine pending and current according to the side of the pending hash.
        var pending := stack[pd];
        var left := if isRight[pd] then hash else pending;
        var right := if isRight[pd] then pending else hash;
        r := Pair(left, right);
        if w != null && groupDepth == 0 {
          w.WriteNode(stem[..pd], InternalNode(left, right));
        }
        occupied[pd] := false;
      } else {
        // Right child without a left sibling: combine with the empty hash.
        r := Pair(Zero, hash);
        if w != null && groupDepth == 0 {
          w.WriteNode(stem[..pd], InternalNode(Zero, hash));
        }
      }
    }

    /** The waiting part: a left child is stored until its right sibling is known. */
    method ParkAt(pd: nat, hash: Hash, stem: Stem, ghost placed: seq<Item>)
      requires Shape() && pd < MAX_DEPTH && !stem[pd] && placed != []
      requires hash == Node(placed, stem[..pd + 1], groupDepth) && PendingBelow(placed, stem, pd + 1)
      modifies stack, occupied, isRight, stemBits
      ensures Shape() && StackAt(placed, stem, pd)
    {
      TakeSnoc(stem, pd);
      stack[pd] := hash;
      occupied[pd] := true;
      isRight[pd] := false;
      stemBits[pd] := stem;
    }

    /** What a hash travelling up from depth hi has caused: records for the depths in (rec, hi] and
    internal nodes for the depths in (em, hi - 1], on top of the given buffers and store. */
    ghost predicate Travelled(
      placed: seq<Item>, stem: Stem, rec: int, em: int, hi: nat, floor: int, buf: Buckets, store: Store, nodes: nat)
      reads this, WriterFrame()
      requires -1 <= em <= rec && hi <= MAX_DEPTH && em < hi
    {
      && (Grouped() ==>
        && w.store == store && w.nodes == nodes
        && groupBuf == Recorded(buf, flushedPaths, placed, stem, rec, hi, groupDepth)
        && BucketsShape(groupBuf, groupStemAtBoundary, stem, groupDepth)
        && SealedAgree(groupBufSealed, groupBuf, placed, stem, floor, rec, groupDepth))
      && (Ungrouped() ==>
        && w.store == Emitted(store, placed, stem, em, hi - 1)
        && w.nodes == nodes + (hi - 1 - em))
    }

    /** One step of PropagateUp, from depth d to depth d - 1. */
    method StepUp(
      hash: Hash, d: nat, stem: Stem, ghost placed: seq<Item>, ghost floor: int,
      ghost hi: nat, ghost buf: Buckets, ghost store: Store, ghost nodes: nat)
      returns (parked: bool, r: Hash)
      requires Shape() && -1 <= floor < d <= hi <= MAX_DEPTH && 0 < d && (floor >= 0 ==> !stem[floor])
      requires placed != [] && Reaches(placed, stem, d - 1) &&
          (floor < d - 1 ==> SplitsAt(placed, stem, d - 1, groupDepth))
      requires hash == NodeOn(placed, stem, d, groupDepth) && PendingBelow(placed, stem, d)
      requires Travelled(placed, stem, d, d - 1, hi, floor, buf, store, nodes)
      modifies stack, occupied, isRight, stemBits, WriterFrame(), this`groupBuf, this`groupStemAtBoundary
      ensures Shape()
      ensures parked ==>
        && StackAt(placed, stem, d - 1)
        && Travelled(placed, stem, d - 1, d - 1, hi, floor, buf, store, nodes)
      ensures !parked ==>
        && floor < d - 1
        && r == NodeOn(placed, stem, d - 1, groupDepth) && PendingBelow(placed, stem, d - 1)
        && Travelled(placed, stem, d - 1, d - 2, hi, floor, buf, store, nodes)
    {
      hide TreeSpec.Node, TreeSpec.Under;
      var pd := d - 1;
      RecordAt(d, hash, stem, placed, floor, buf, hi);
      parked := !occupied[pd] && !stem[pd];
      if parked {
        ParkAt(pd, hash, stem, placed);
        r := Zero;
      } else {
        r := CombineAt(pd, hash, stem, placed);
      }
    }

    /** Pushes a finished hash from fromDepth towards the root until it has to wait for a right
    sibling. */
    method PropagateUp(h: Hash, fromDepth: nat, stem: Stem, ghost placed: seq<Item>, ghost floor: int)
      returns (ghost stop: int)
      requires Shape() && -1 <= floor < fromDepth <= MAX_DEPTH && (floor >= 0 ==> !stem[floor])
      requires placed != [] && OnPath(placed, stem) && AllSplit(placed, stem, floor, fromDepth - 1, groupDepth)
      requires h == NodeOn(placed, stem, fromDepth, groupDepth) && PendingBelow(placed, stem, fromDepth)
      requires Grouped() ==> BucketsShape(groupBuf, groupStemAtBoundary, stem, groupDepth)
      requires Grouped() ==> SealedAgree(groupBufSealed, groupBuf, placed, stem, floor, fromDepth, groupDepth)
      modifies stack, occupied, isRight, stemBits, WriterFrame(), this`groupBuf, this`groupStemAtBoundary
      ensures Shape() && floor <= stop < fromDepth && StackAt(placed, stem, stop)
      ensures var (store, nodes) := if w == null then (map[], 0) else old((w.store, w.nodes));
              Travelled(placed, stem, stop, stop, fromDepth, floor, old(groupBuf), store, nodes)
    {
      hide TreeSpec.Node, TreeSpec.Under, BuilderSpec.BucketsShape, BuilderSpec.RecordOne, Groups.SlotAt;
      assert stem[..0] == [];
      ghost var (store, nodes) := if w == null then (map[], 0) else (w.store, w.nodes);
      var hash := h;
      var d := fromDepth;
      while d > 0
        invariant Shape() && floor < d <= fromDepth
        invariant hash == NodeOn(placed, stem, d, groupDepth) && PendingBelow(placed, stem, d)
        invariant Travelled(placed, stem, d, d - 1, fromDepth, floor, old(groupBuf), store, nodes)
      {
        assert Reaches(placed, stem, d - 1);
        assert floor < d - 1 ==> SplitsAt(placed, stem, d - 1, groupDepth);
        var parked, parent := StepUp(hash, d, stem, placed, floor, fromDepth, old(groupBuf), store, nodes);
        if parked {
          stop := d - 1;
          return;
        }
        hash, d := parent, d - 1;
      }
      stack[0] := hash;
      stop := -1;
    }

    /** Resolves every pending hash at depth minDepth or below by combining it with an empty right
    sibling. */
    method UnwindTo(minDepth: nat, ghost placed: seq<Item>, ghost stem: Stem, ghost s: int)
      requires Shape() && minDepth <= MAX_DEPTH && StackAt(placed, stem, s) && minDepth - 1 <= s
      requires placed == [] ==> s == -1
      requires minDepth > 0 ==> !stem[minDepth - 1]
      requires placed != [] ==> OnPath(placed, stem) && Rightmost(placed, stem)
      requires AllSplit(placed, stem, minDepth - 1, s, groupDepth)
      requires Grouped() ==> BucketsShape(groupBuf, groupStemAtBoundary, stem, groupDepth)
      requires Grouped() ==> SealedAgree(groupBufSealed, groupBuf, placed, stem, minDepth - 1, s, groupDepth)
      modifies stack, occupied, isRight, stemBits, WriterFrame(), this`groupBuf, this`groupStemAtBoundary
      ensures Shape() && StackAt(placed, stem, minDepth - 1)
      ensures var (store, nodes) := if w == null then (map[], 0) else old((w.store, w.nodes));
              Unwound(placed, stem, minDepth - 1, s, minDepth - 1, old(groupBuf), store, nodes)
    {
      hide TreeSpec.Node, TreeSpec.Under;
      ghost var (store, nodes) := if w == null then (map[], 0) else (w.store, w.nodes);
      ghost var cur := s;
      var d := MAX_DEPTH - 1;
      while d >= minDepth
        invariant minDepth - 1 <= cur <= s && cur <= d < MAX_DEPTH
        invariant Shape() && StackAt(placed, stem, cur)
        invariant Unwound(placed, stem, cur, s, minDepth - 1, old(groupBuf), store, nodes)
      {
        if occupied[d] {
          assert d == cur;
          assert Reaches(placed, stem, d) && SplitsAt(placed, stem, d, groupDepth) && NoneRight(placed, stem, d);
          cur := UnwindOne(d, placed, stem, s, minDepth - 1, old(groupBuf), store, nodes);
        }
        d := d - 1;
      }
    }

    /** Effects of unwinding from frontier s down to frontier lo. */
    ghost predicate Unwound(
      placed: seq<Item>, stem: Stem, lo: int, s: int, floor: int, buf: Buckets, store: Store, nodes: nat)
      reads this, WriterFrame()
      requires -1 <= lo <= s < MAX_DEPTH
    {
      && (Grouped() ==>
        && w.store == store && w.nodes == nodes
        && groupBuf == Recorded(buf, flushedPaths, placed, stem, lo, s, groupDepth)
        && BucketsShape(groupBuf, groupStemAtBoundary, stem, groupDepth)
        && SealedAgree(groupBufSealed, groupBuf, placed, stem, floor, lo, groupDepth))
      && (Ungrouped() ==>
        && w.store == Emitted(store, placed, stem, lo, s)
        && w.nodes == nodes + (s - lo))
    }

    /** Resolves the deepest pending hash. */
    method UnwindOne(d: nat, ghost placed: seq<Item>, ghost stem: Stem, ghost s: int, ghost floor: int,
                     ghost buf: Buckets, ghost store: Store, ghost nodes: nat) returns (ghost stop: int)
      requires Shape() && -1 <= floor < d <= s < MAX_DEPTH && StackAt(placed, stem, d) && (floor >= 0 ==> !stem[floor])
      requires placed != [] && OnPath(placed, stem) && NoneRight(placed, stem, d)
      requires AllSplit(placed, stem, floor, d, groupDepth)
      requires Unwound(placed, stem, d, s, floor, buf, store, nodes)
      modifies stack, occupied, isRight, stemBits, WriterFrame(), this`groupBuf, this`groupStemAtBoundary
      ensures Shape() && floor <= stop < d && StackAt(placed, stem, stop)
      ensures Unwound(placed, stem, stop, s, floor, buf, store, nodes)
    {
      hide TreeSpec.Node, TreeSpec.Under;
      assert Reaches(placed, stem, d) && SplitsAt(placed, stem, d, groupDepth);
      var combined, pendingStem := ResolvePending(d, placed, stem);
      ghost var mid := if w == null then map[] else w.store;
      stop := PropagateUp(combined, d, pendingStem, placed, floor);
      if Ungrouped() {
        assert mid == Emitted(store, placed, stem, d - 1, s);
        EmittedChain(store, placed, stem, stop, d - 1, s);
      }
      if Grouped() { RecordedChain(buf, flushedPaths, placed, stem, stop, d, s, groupDepth); }
    }

    /** Combines the deepest pending hash with an empty right sibling. */
    method ResolvePending(d: nat, ghost placed: seq<Item>, ghost stem: Stem) returns (combined: Hash, pendingStem: Stem)
      requires Shape() && d < MAX_DEPTH && StackAt(placed, stem, d)
      requires Reaches(placed, stem, d) && NoneRight(placed, stem, d) && SplitsAt(placed, stem, d, groupDepth)
      modifies occupied, WriterFrame()
      ensures Shape() && pendingStem == stem
      ensures combined == NodeOn(placed, stem, d, groupDepth) && PendingBelow(placed, stem, d)
      ensures Grouped() ==> w.store == old(w.store) && w.nodes == old(w.nodes)
      ensures Ungrouped() ==> w.nodes == old(w.nodes) + 1
      ensures Ungrouped() ==> w.store == old(w.store)[stem[..d] :=
        InternalNode(Node(placed, stem[..d] + [false], 0), Node(placed, stem[..d] + [true], 0))]
    {
      NodeSplits(placed, stem[..d], groupDepth);
      assert Node(placed, stem[..d] + [true], groupDepth) == Zero;
      hide TreeSpec.Node, TreeSpec.Under;
      var pending := stack[d];
      var left := if isRight[d] then Zero else pending;
      var right := if isRight[d] then pending else Zero;
      combined := Pair(left, right);
      if w != null && groupDepth == 0 {
        w.WriteNode(stemBits[d][..d], InternalNode(left, right));
      }
      pendingStem := stemBits[d];
      occupied[d] := false;
    }

    /** Serializes and writes a group with the children collected for it, closes its bucket, and
    returns the hash a reader of the written node will compute. */
    method WriteGroupedNode(boundary: nat, stem: Stem) returns (h: Hash)
      requires w != null && boundary <= MAX_DEPTH
      requires forall t :: t in Bucket(groupBuf, boundary) ==> t < Pow2(groupDepth)
      modifies w, this`groupBuf, this`groupBufSealed, this`flushedPaths
      ensures old(Bucket(groupBuf, boundary)) == map[] ==>
        && h == Zero && w.store == old(w.store) && w.nodes == old(w.nodes)
        && groupBuf == old(groupBuf) && groupBufSealed == old(groupBufSealed) && flushedPaths == old(flushedPaths)
      ensures old(Bucket(groupBuf, boundary)) != map[] ==>
        var bucket := old(Bucket(groupBuf, boundary));
        && h == ReaderHash(bucket, groupDepth, 0)
        && w.store == old(w.store)[stem[..boundary] := GroupNode(groupDepth, ChildList(bucket, Pow2(groupDepth)))]
        && w.nodes == old(w.nodes) + 1
        && groupBuf == old(groupBuf) - {boundary} && groupBufSealed == old(groupBufSealed) - {boundary}
        && flushedPaths == old(flushedPaths) + {stem[..boundary]}
    {
      hide BuilderSpec.ChildList, Groups.ReaderHash;
      var bucket := if boundary in groupBuf then groupBuf[boundary] else map[];
      assert bucket == Bucket(groupBuf, boundary);
      if bucket == map[] { return Zero; }
      var children := SortedChildren(bucket, Pow2(groupDepth));
      var path := stem[..boundary];
      w.WriteNode(path, GroupNode(groupDepth, children));
      flushedPaths := flushedPaths + {path};
      groupBuf := groupBuf - {boundary};
      groupBufSealed := groupBufSealed - {boundary};
      h := GroupedRecursiveHash(groupDepth, children, bucket);
    }

    /** Writes the group at boundary b and cascades its recomputed hash into the sealed slot of its
    parent, or publishes it as the root. */
    method CascadeGroup(b: nat, stem: Stem, ghost l: Stem)
      requires w != null && b in groupBuf && b in groupStemAtBoundary && groupStemAtBoundary[b] == stem
      requires BucketsShape(groupBuf, groupStemAtBoundary, l, groupDepth) && SealedSubset(groupBufSealed, groupBuf)
      requires forall t :: t in groupBuf[b] ==> t < Pow2(groupDepth)
      modifies w, this`groupBuf, this`groupBufSealed, this`groupStemAtBoundary, this`flushedPaths
      modifies this`rootGroupHash, this`rootGroupHashSet
      ensures GroupDepthAt(b, groupDepth)
      ensures var h := ReaderHash(old(groupBuf[b]), groupDepth, 0);
        && groupBuf == Cascaded(old(groupBuf), l, b, h, groupDepth)
        && (b == 0 ==> rootGroupHash == h && rootGroupHashSet)
      ensures b > 0 ==> rootGroupHash == old(rootGroupHash) && rootGroupHashSet == old(rootGroupHashSet)
      ensures BucketsShape(groupBuf, groupStemAtBoundary, l, groupDepth) && SealedSubset(groupBufSealed, groupBuf)
      ensures w.store == old(w.store)[l[..b] := GroupNode(groupDepth, ChildList(old(groupBuf[b]), Pow2(groupDepth)))]
      ensures w.nodes == old(w.nodes) + 1 && flushedPaths == old(flushedPaths) + {l[..b]}
    {
      hide BuilderSpec.ChildList, Groups.ReaderHash, Groups.SlotOf, BuilderSpec.BucketsShape,
        BuilderSteps.SealedSubset;
      ghost var buf := groupBuf;
      ghost var stems := groupStemAtBoundary;
      ghost var seal := groupBufSealed;
      StemOnPath(buf, stems, l, b, groupDepth);
      var groupHash := WriteGroupedNode(b, stem);
      groupStemAtBoundary := groupStemAtBoundary - {b};
      ShapeCascade(buf, stems, l, b, groupHash, groupDepth);
      SealedCascade(seal, buf, l, b, groupHash, groupDepth);
      if b == 0 {
        rootGroupHash := groupHash;
        rootGroupHashSet := true;
      } else {
        BoundariesApart(0, b, groupDepth);
        SealParent(b - groupDepth, stem, groupHash, l);
      }
    }

    /** Stores a flushed group's hash in its parent's slot and seals the slot. */
    method SealParent(parentBoundary: nat, stem: Stem, groupHash: Hash, ghost l: Stem)
      requires parentBoundary + groupDepth <= MAX_DEPTH
      requires stem[..parentBoundary + groupDepth] == l[..parentBoundary + groupDepth]
      modifies this`groupBuf, this`groupBufSealed, this`groupStemAtBoundary
      ensures var slot := SlotAt(l, parentBoundary, groupDepth);
        && groupBuf == old(groupBuf)[parentBoundary := Bucket(old(groupBuf), parentBoundary)[slot := groupHash]]
        && groupBufSealed
           == old(groupBufSealed)[parentBoundary := SealedAt(old(groupBufSealed), parentBoundary) + {slot}]
      ensures groupStemAtBoundary == old(groupStemAtBoundary)[parentBoundary := stem]
    {
      var slot := SlotFromBits(stem, parentBoundary);
      ghost var e := parentBoundary + groupDepth;
      assert stem[parentBoundary..e] == stem[..e][parentBoundary..] == l[..e][parentBoundary..] == l[parentBoundary..e];
      var parentBucket := if parentBoundary in groupBuf then groupBuf[parentBoundary] else map[];
      groupBuf := groupBuf[parentBoundary := parentBucket[slot := groupHash]];
      var slots := if parentBoundary in groupBufSealed then groupBufSealed[parentBoundary] else {};
      groupBufSealed := groupBufSealed[parentBoundary := slots + {slot}];
      groupStemAtBoundary := groupStemAtBoundary[parentBoundary := stem];
    }

    /** State of a flush that has handled all boundaries above b: deeper buckets are empty, the
    slots towards l are recorded for depths below cur, and the complete groups are written. */
    ghost predicate Flushing(
      b: int, cur: int, s: seq<Item>, l: Stem, hi: nat, c: int, store: Store, nodes: nat)
      reads this, WriterFrame()
      requires Grouped()
    {
      && c <= cur < b + groupDepth && cur < hi
      && BucketsAre(groupBuf, s, l, cur, hi, b, groupDepth)
      && BucketsShape(groupBuf, groupStemAtBoundary, l, groupDepth)
      && SealedSubset(groupBufSealed, groupBuf)
      && FlushedAre(flushedPaths, w.store)
      && StoreGrown(store, w.store, s, l, Max(b, c), hi, groupDepth)
      && w.nodes == nodes + (|w.store| - |store|)
    }

    /** One boundary of a flush. */
    method FlushBoundary(b: nat, ghost cur: int, ghost s: seq<Item>, ghost l: Stem, ghost hi: nat, ghost c: int,
                         ghost store: Store, ghost nodes: nat) returns (ghost cur': int)
      requires Grouped() && Flushing(b, cur, s, l, hi, c, store, nodes) && NonZero(s)
      requires -1 <= c < b < MAX_DEPTH && b % groupDepth == 0 && hi % groupDepth == 0 && hi <= MAX_DEPTH
      requires |Under(s, l[..hi])| == 1 && OnPath(s, l)
      requires b < hi ==> |Under(s, l[..b])| >= 2 && l[..b] !in store
      modifies w, this`groupBuf, this`groupBufSealed, this`groupStemAtBoundary, this`flushedPaths
      modifies this`rootGroupHash, this`rootGroupHashSet
      ensures Flushing(b - groupDepth, cur', s, l, hi, c, store, nodes)
      ensures b > 0 || hi == 0 ==> rootGroupHash == old(rootGroupHash) && rootGroupHashSet == old(rootGroupHashSet)
      ensures b == 0 && hi > 0 ==> rootGroupHashSet && rootGroupHash == Node(s, [], groupDepth)
    {
      hide TreeSpec.Node, TreeSpec.Under, BuilderSpec.NodeAt, BuilderSpec.BucketsShape, BuilderSteps.SealedSubset,
        BuilderSpec.Slots, BuilderSpec.StoreGrown, BuilderSpec.FlushedAre, BuilderSpec.BucketsAre,
        BuilderSteps.OnPath, TreeSpec.NonZero;
      cur' := cur;
      FlushCase(groupBuf, groupStemAtBoundary, s, l, cur, hi, b, groupDepth);
      if b !in groupBuf || groupBuf[b] == map[] {
        GrowSkip(store, w.store, s, l, Max(b - groupDepth, c), b, hi, groupDepth);
        SkipBucket(groupBuf, s, l, cur, hi, b, groupDepth);
      } else {
        assert b in groupStemAtBoundary;
        cur' := FlushGroup(b, groupStemAtBoundary[b], cur, s, l, hi, c, store, nodes);
      }
    }

    method FlushGroup(
      b: nat, stem: Stem, ghost cur: int, ghost s: seq<Item>, ghost l: Stem, ghost hi: nat, ghost c: int,
                      ghost store: Store, ghost nodes: nat) returns (ghost cur': int)
      requires Grouped() && Flushing(b, cur, s, l, hi, c, store, nodes) && NonZero(s)
      requires -1 <= c < b < hi <= MAX_DEPTH && GroupDepthAt(b, groupDepth)
      requires l[..b] !in store && |Under(s, l[..b])| >= 2
      requires b in groupBuf && b in groupStemAtBoundary && groupStemAtBoundary[b] == stem
      requires groupBuf[b] == FullSlots(s, l[..b], groupDepth) &&
          (forall t :: t in groupBuf[b] ==> t < Pow2(groupDepth))
      requires NodeAt(s, l[..b], groupDepth) == GroupNode(groupDepth, ChildList(groupBuf[b], Pow2(groupDepth)))
      modifies w, this`groupBuf, this`groupBufSealed, this`groupStemAtBoundary, this`flushedPaths
      modifies this`rootGroupHash, this`rootGroupHashSet
      ensures Flushing(b - groupDepth, cur', s, l, hi, c, store, nodes)
      ensures b > 0 ==> rootGroupHash == old(rootGroupHash) && rootGroupHashSet == old(rootGroupHashSet)
      ensures b == 0 ==> rootGroupHashSet && rootGroupHash == Node(s, [], groupDepth)
    {
      hide TreeSpec.Node, TreeSpec.Under, BuilderSpec.NodeAt, BuilderSpec.BucketsShape, BuilderSteps.SealedSubset,
        BuilderSpec.Slots, BuilderSpec.StoreGrown, BuilderSpec.FlushedAre, BuilderSpec.BucketsAre, TreeSpec.NonZero,
        BuilderSpec.Cascaded, BuilderSpec.ChildList, Groups.FullSlots, Groups.ReaderHash;
      ghost var buf := groupBuf;
      ghost var before := w.store;
      ghost var flushed := flushedPaths;
      ReaderHashIsNode(s, l[..b], groupDepth);
      BucketsFlush(buf, s, l, cur, hi, b, groupDepth);
      GrowStep(store, before, s, l, Max(b - groupDepth, c), b, hi, groupDepth);
      FlushedGrow(flushed, before, s, l[..b], groupDepth);
      CascadeGroup(b, stem, l);
      assert |w.store| == |before| + 1;
      cur' := if cur < b then cur else b - 1;
      assert l[..0] == [];
    }

    /** What must hold before a flush down to completion depth c, with the last stem stored at depth
    hi and its records complete below depth lo. */
    ghost predicate FlushReady(s: seq<Item>, l: Stem, lo: int, hi: nat, c: int)
      reads this, WriterFrame()
      requires Grouped()
    {
      && -1 <= c <= lo < hi <= MAX_DEPTH && hi % groupDepth == 0
      && NonZero(s) && OnPath(s, l) && |Under(s, l[..hi])| == 1 && AllSplit(s, l, c, hi - 1, groupDepth)
      && BucketsAre(groupBuf, s, l, lo, hi, MAX_DEPTH, groupDepth)
      && BucketsShape(groupBuf, groupStemAtBoundary, l, groupDepth)
      && SealedSubset(groupBufSealed, groupBuf)
      && FlushedAre(flushedPaths, w.store)
      && forall d: nat :: c < d < hi ==> l[..d] !in w.store
    }

    /** A flush starts at the deepest boundary, with nothing written. */
    lemma {:induction false} FlushBegins(s: seq<Item>, l: Stem, lo: int, hi: nat, c: int, b: nat)
      requires Grouped() && FlushReady(s, l, lo, hi, c) && b == BoundaryOf(MAX_DEPTH - 1, groupDepth)
      ensures Flushing(b, lo, s, l, hi, c, w.store, w.nodes) && StepDepth(b, groupDepth)
      ensures FlushPath(s, l, hi, c, w.store, groupDepth) && -1 <= c < b + groupDepth && b < MAX_DEPTH
    {
      hide TreeSpec.Node, TreeSpec.Under, BuilderSpec.NodeAt, BuilderSpec.BucketsShape, BuilderSteps.SealedSubset,
        BuilderSpec.StoreGrown, BuilderSpec.FlushedAre, BuilderSpec.BucketsAre, BuilderSteps.OnPath,
        TreeSpec.NonZero, Groups.StepDepth;
      FlushStart(groupBuf, w.store, s, l, lo, hi, b, c, groupDepth);
      forall d: nat | c < d < hi && d % groupDepth == 0 ensures |Under(s, l[..d])| >= 2 {
        assert SplitsAt(s, l, d, groupDepth);
      }
    }

    /** Writes every complete group, deepest first: those at boundaries below completionDepth. */
    method FlushCompletedGroupsAbove(
      completionDepth: int, ghost s: seq<Item>, ghost l: Stem, ghost lo: int, ghost hi: nat)
      returns (ghost top: int, ghost cur: int)
      requires Grouped() ==> FlushReady(s, l, lo, hi, completionDepth)
      modifies WriterFrame(), this`groupBuf, this`groupBufSealed, this`groupStemAtBoundary, this`flushedPaths
      modifies this`rootGroupHash, this`rootGroupHashSet
      ensures w != null && !Grouped() ==> w.store == old(w.store) && w.nodes == old(w.nodes)
      ensures Grouped() ==>
        && Flushing(top, cur, s, l, hi, completionDepth, old(w.store), old(w.nodes))
        && top <= completionDepth < top + groupDepth && StepDepth(top, groupDepth)
      ensures Grouped() && completionDepth == -1 && hi > 0 ==>
          rootGroupHashSet && rootGroupHash == Node(s, [], groupDepth)
      ensures !(Grouped() && completionDepth == -1 && hi > 0) ==> rootGroupHashSet == old(rootGroupHashSet)
    {
      hide TreeSpec.Node, TreeSpec.Under, Flushing, FlushReady, BuilderSteps.FlushPath, BuilderSteps.OnPath,
        TreeSpec.NonZero, Groups.StepDepth, Groups.BoundaryOf;
      top, cur := 0, lo;
      if w == null || groupDepth == 0 { return; }
      ghost var store, nodes := w.store, w.nodes;
      var b: int := BoundaryOf(MAX_DEPTH - 1, groupDepth);
      FlushBegins(s, l, lo, hi, completionDepth, b);
      while b >= 0 && b > completionDepth
        invariant b < MAX_DEPTH && completionDepth < b + groupDepth && StepDepth(b, groupDepth)
        invariant Flushing(b, cur, s, l, hi, completionDepth, store, nodes)
        invariant completionDepth == -1 && hi > 0 && b < 0 ==>
          rootGroupHashSet && rootGroupHash == Node(s, [], groupDepth)
        invariant !(completionDepth == -1 && hi > 0 && b < 0) ==> rootGroupHashSet == old(rootGroupHashSet)
      {
        StepDepthUp(b, groupDepth);
        FlushPathAt(s, l, hi, completionDepth, store, groupDepth, b);
        cur := FlushBoundary(b, cur, s, l, hi, completionDepth, store, nodes);
        b := b - groupDepth;
      }
      top := b;
    }

    // ----- the invariant between calls

    ghost predicate Valid()
      reads this, stack, occupied, isRight, stemBits, WriterFrame()
    {
      && Shape()
      && Ascending(fed) && Fits(fed, groupDepth) && (Grouped() ==> NonZero(fed))
      && hasPrev == (fed != [])
      && (fed == [] ==> Empty())
      && (fed != [] ==> Resting(fed[..|fed| - 1], fed[|fed| - 1]))
    }

    ghost predicate Empty()
      reads this, occupied, WriterFrame()
    {
      && (forall d :: 0 <= d < occupied.Length ==> !occupied[d])
      && (w != null ==> w.store == map[] && w.nodes == 0)
      && groupBuf == map[] && groupBufSealed == map[] && groupStemAtBoundary == map[] && flushedPaths == {}
      && !rootGroupHashSet
    }

    /** s is placed up to its frontier and n is deferred. */
    ghost predicate Resting(s: seq<Item>, n: Item)
      reads this, stack, occupied, stemBits, WriterFrame()
      requires stack.Length == occupied.Length == stemBits.Length == MAX_DEPTH
    {
      && Deferred(s, n)
      && StackAt(s, TipOf(s, n), frontier)
      && prevLeftCPL <= frontier && (s == [] ==> frontier == -1)
      && AllSplit(s, TipOf(s, n), prevLeftCPL, frontier, groupDepth)
      && Written(s, n, frontier, prevLeftCPL)
    }

    /** n is the deferred item. */
    ghost predicate Deferred(s: seq<Item>, n: Item)
      reads `prevStem, `prevHash, `prevEntries, `prevLeftCPL
    {
      && prevStem == n.stem && prevHash == n.hash && (w != null ==> prevEntries == n.entries)
      && prevLeftCPL == NextCPL(s, [n]) && TargetDepth(prevLeftCPL + 1, groupDepth) <= MAX_DEPTH
    }

    /** The store and the buffers hold what s determines, with n to come; in ungrouped mode the path
    of the left neighbour is open down to depth `open`. */
    ghost predicate Written(s: seq<Item>, n: Item, open: int, c: int)
      reads `groupBuf, `groupBufSealed, `groupStemAtBoundary, `flushedPaths, `rootGroupHashSet, WriterFrame()
    {
      && (w != null ==> w.nodes == |w.store|)
      && (Ungrouped() ==> StoreIs(w.store, s, [n], TipOf(s, n), open, 0))
      && (Grouped() ==>
        && StoreIs(w.store, s, [n], TipOf(s, n), c, groupDepth)
        && RestBuckets(groupBuf, s, n, groupDepth)
        && BucketsShape(groupBuf, groupStemAtBoundary, n.stem, groupDepth)
        && SealedSubset(groupBufSealed, groupBuf)
        && FlushedAre(flushedPaths, w.store)
        && !rootGroupHashSet)
    }

    lemma {:induction false} StopInRange(placed: seq<Item>, stem: Stem, stop: int)
      requires stack.Length == occupied.Length == stemBits.Length == MAX_DEPTH && StackAt(placed, stem, stop)
      ensures -1 <= stop < MAX_DEPTH
    {
    }

    /** Resolves what the left neighbour left pending below its branch point with n. */
    method UnwindNeighbour(ghost s: seq<Item>, ghost n: Item)
      requires Shape() && Ascending(s + [n]) && Resting(s, n)
      modifies stack, occupied, isRight, stemBits, WriterFrame(), this`groupBuf, this`groupStemAtBoundary
      ensures Shape() && StackAt(s, TipOf(s, n), prevLeftCPL) && Written(s, n, prevLeftCPL, prevLeftCPL)
    {
      hide TreeSpec.Node, TreeSpec.Under, BuilderSpec.NodeAt, BuilderSpec.Slots, BuilderSpec.StoreIs,
        BuilderSpec.FlushedAre, BuilderSteps.RestBuckets, BuilderSpec.BucketsShape, BuilderSteps.SealedSubset,
        BuilderSteps.SealedAgree, BuilderSpec.Recorded, BuilderSpec.Emitted, TreeSpec.Ascending,
        BuilderSteps.AllSplit, StackAt, BuilderSteps.OnPath, BuilderSteps.Rightmost;
      ghost var tip := TipOf(s, n);
      StopInRange(s, tip, frontier);
      ghost var buf, stems := groupBuf, groupStemAtBoundary;
      if s != [] {
        AscendingInit(s, n);
        LastOnPath(s);
        LastIsRightmost(s);
        NeighbourBits(s, n);
        if Grouped() {
          ShapeMoves(buf, stems, s, n, groupDepth);
          SealedRest(groupBufSealed, buf, stems, s, n, prevLeftCPL, frontier, groupDepth);
          RetraversalIsNoop(buf, flushedPaths, w.store, s, n, frontier, groupDepth);
        }
        if Ungrouped() { StoreUnwind(w.store, s, n, frontier); }
      } else {
        NothingToUnwind(groupBufSealed, buf, flushedPaths, if w == null then map[] else w.store, s, tip, groupDepth);
      }
      UnwindTo(prevLeftCPL + 1, s, tip, frontier);
      if s != [] && Grouped() { ShapeMoves(buf, groupStemAtBoundary, s, n, groupDepth); }
    }

    /** What is pending for the left neighbour is what n will meet on its way up. */
    lemma {:induction false} PendingMoves(s: seq<Item>, n: Item, t: nat)
      requires Shape() && Ascending(s + [n]) && StackAt(s, TipOf(s, n), NextCPL(s, [n])) && NextCPL(s, [n]) < t
      ensures PendingBelow(s + [n], n.stem, t)
    {
      hide TreeSpec.Node, TreeSpec.Under, TreeSpec.Ascending;
      if s == [] {
        forall d | 0 <= d < MAX_DEPTH && n.stem[d] ensures Under(s + [n], n.stem[..d] + [false]) == [] {
          NotPrefix(n.stem, d);
          NodeFrame(s, n, n.stem[..d] + [false], groupDepth);
          NoneUnder(s, n.stem[..d] + [false]);
        }
        forall d | 0 <= d < MAX_DEPTH ensures Under(s, n.stem[..d] + [false]) == [] {
          NoneUnder(s, n.stem[..d] + [false]);
        }
      } else {
        forall d | 0 <= d < MAX_DEPTH
          ensures occupied[d] <==> d < t && n.stem[d] && Under(s + [n], n.stem[..d] + [false]) != []
          ensures occupied[d] ==> stack[d] == Node(s + [n], n.stem[..d] + [false], groupDepth)
        {
          SiblingsMove(s, n, d, groupDepth);
        }
      }
    }

    /** Writes the deferred stem at its depth and pushes its hash up. */
    method PlaceDeferred(targetDepth: nat, ghost s: seq<Item>, ghost n: Item, ghost next: seq<Item>)
      returns (ghost stop: int)
      requires Shape() && Ascending(s + [n]) && |next| <= 1 && Ascending(s + [n] + next) && Deferred(s, n)
      requires StackAt(s, TipOf(s, n), prevLeftCPL) && Written(s, n, prevLeftCPL, prevLeftCPL)
      requires targetDepth == PlaceDepth(s, n, next, groupDepth) <= MAX_DEPTH && (Grouped() ==> NonZero(s + [n]))
      modifies stack, occupied, isRight, stemBits, WriterFrame(), this`groupBuf, this`groupStemAtBoundary
      ensures Shape() && NextCPL(s + [n], next) <= stop < targetDepth && StackAt(s + [n], n.stem, stop)
      ensures AllSplit(s + [n], n.stem, NextCPL(s + [n], next), targetDepth - 1, groupDepth)
      ensures w != null ==> w.nodes == |w.store|
      ensures Ungrouped() ==> StoreIs(w.store, s + [n], next, n.stem, stop, 0)
      ensures Grouped() ==>
        && w.store == old(w.store)[n.stem[..targetDepth] := StemNode(n.stem, n.entries)]
        && FlushReady(s + [n], n.stem, stop, targetDepth, NextCPL(s + [n], next))
    {
      hide TreeSpec.Node, TreeSpec.Under, BuilderSpec.NodeAt, BuilderSpec.Slots, BuilderSpec.StoreIs,
        BuilderSpec.FlushedAre, BuilderSteps.RestBuckets, BuilderSpec.BucketsShape, BuilderSteps.SealedSubset,
        BuilderSteps.SealedAgree, BuilderSpec.Recorded, BuilderSpec.Emitted, TreeSpec.Ascending,
        BuilderSteps.AllSplit, BuilderSpec.NextCPL, BuilderSteps.OnPath, BuilderSteps.PlaceDepth,
        BuilderSpec.BucketsAre, TreeSpec.NonZero, StackAt, PendingBelow;
      ghost var f, c := s + [n], NextCPL(s + [n], next);
      ghost var buf := groupBuf;
      ghost var store := if w == null then map[] else w.store;
      PlaceFacts(s, n, next, groupDepth);
      LastOnPath(f);
      PendingMoves(s, n, targetDepth);
      if next != [] {
        assert next == [next[0]];
        NeighbourBits(f, next[0]);
      } else {
        NoNext(f, next);
      }
      if Grouped() { SealedFresh(groupBufSealed, buf, s, n, f, c, targetDepth, groupDepth); }
      if w != null {
        NotInStore(store, s, n, TipOf(s, n), prevLeftCPL, groupDepth);
        w.WriteNode(prevStem[..targetDepth], StemNode(prevStem, prevEntries));
      }
      stop := PropagateUp(prevHash, targetDepth, prevStem, f, c);
      if Ungrouped() {
        StorePlaceUngrouped(store, s, n, next, stop);
        PlaceCount(store, f, n, stop, targetDepth);
      }
      if Grouped() {
        PlacedBuffers(groupBufSealed, buf, flushedPaths, store, s, n, next, stop, targetDepth, groupDepth);
      }
    }

    /** One level below the deeper branch point, extended to the group's bottom boundary. */
    method ChooseDepth(rightCPL: int, ghost s: seq<Item>, ghost n: Item, ghost next: seq<Item>)
      returns (targetDepth: nat)
      requires prevLeftCPL == NextCPL(s, [n]) && rightCPL == NextCPL(s + [n], next)
      ensures targetDepth == PlaceDepth(s, n, next, groupDepth)
    {
      var depth := prevLeftCPL;
      if rightCPL > depth {
        depth := rightCPL;
      }
      depth := depth + 1;
      if groupDepth > 0 {
        var boundary := BoundaryOf(depth, groupDepth);
        if depth > boundary {
          depth := boundary + groupDepth;
        }
      }
      targetDepth := depth;
    }

    /** Places the deferred stem now that its right neighbour is known (rightCPL is -1 if there is
    none). In grouped mode the depth is extended to the group's bottom boundary; an extended depth
    beyond the last bit of the stem is an index out of range. */
    method FlushDeferred(rightCPL: int, ghost s: seq<Item>, ghost n: Item, ghost next: seq<Item>)
      returns (panicked: bool, ghost stop: int, ghost target: nat, ghost store: Store)
      requires Shape() && Ascending(s + [n]) && |next| <= 1 && Ascending(s + [n] + next)
      requires Resting(s, n) && rightCPL == NextCPL(s + [n], next) && (Grouped() ==> NonZero(s + [n]))
      modifies stack, occupied, isRight, stemBits, WriterFrame(), this`groupBuf, this`groupStemAtBoundary
      ensures target == PlaceDepth(s, n, next, groupDepth)
      ensures panicked <==> target > MAX_DEPTH
      ensures !panicked ==> Shape() && rightCPL <= stop < target && StackAt(s + [n], n.stem, stop)
      ensures !panicked ==> AllSplit(s + [n], n.stem, rightCPL, target - 1, groupDepth)
      ensures !panicked && w != null ==> w.nodes == |w.store|
      ensures !panicked && Ungrouped() ==> StoreIs(w.store, s + [n], next, n.stem, stop, 0)
      ensures !panicked && Grouped() ==>
        && StemAdded(store, w.store, s, n, target)
        && FlushReady(s + [n], n.stem, stop, target, rightCPL)
    {
      hide FlushReady, StackAt, BuilderSpec.StoreIs, BuilderSteps.PlaceDepth, BuilderSpec.NextCPL, TreeSpec.Node,
        TreeSpec.Under, BuilderSteps.AllSplit, BuilderSteps.OnPath, BuilderSpec.BucketsAre, TreeSpec.NonZero,
        TreeSpec.Ascending, Groups.TargetDepth;
      assert Deferred(s, n);
      hide Resting;
      var targetDepth := ChooseDepth(rightCPL, s, n, next);
      target, stop, store := targetDepth, -1, map[];
      UnwindNeighbour(s, n);
      panicked := targetDepth > MAX_DEPTH;
      if panicked { return; }
      store := if w == null then map[] else w.store;
      stop := PlaceDeferred(targetDepth, s, n, next);
    }

    /** after is a resting store for s and n, plus the node of n. */
    ghost predicate StemAdded(store: Store, after: Store, s: seq<Item>, n: Item, t: nat)
      reads `prevLeftCPL
    {
      && t <= MAX_DEPTH
      && StoreIs(store, s, [n], TipOf(s, n), prevLeftCPL, groupDepth)
      && after == store[n.stem[..t] := StemNode(n.stem, n.entries)]
    }

    constructor (groupDepth: nat, w: TrieNodeWriter?)
      requires w != null ==> w.store == map[] && w.nodes == 0
      ensures Valid() && fed == [] && this.groupDepth == groupDepth && this.w == w
      ensures fresh(stack) && fresh(occupied) && fresh(isRight) && fresh(stemBits)
    {
      this.groupDepth, this.w := groupDepth, w;
      stack := new Hash[MAX_DEPTH](_ => Zero);
      occupied := new bool[MAX_DEPTH](_ => false);
      isRight := new bool[MAX_DEPTH](_ => false);
      stemBits := new Stem[MAX_DEPTH](_ => seq(MAX_DEPTH, _ => false));
      groupBuf, groupBufSealed, groupStemAtBoundary, flushedPaths := map[], map[], map[], {};
      rootGroupHash, rootGroupHashSet := Zero, false;
      hasPrev, prevHash, prevStem, prevLeftCPL, prevEntries := false, Zero, seq(MAX_DEPTH, _ => false), -1, [];
      fed, frontier := [], -1;
    }

    /** The grouped store and buffers after the flush at a transition from n to the next item. */
    method FlushTransition(rightCPL: int, ghost s: seq<Item>, ghost n: Item, ghost item: Item,
                           ghost stop: int, ghost target: nat, ghost store: Store)
      requires Ascending(s + [n]) && Ascending(s + [n] + [item]) && rightCPL == NextCPL(s + [n], [item])
      requires target == PlaceDepth(s, n, [item], groupDepth) <= MAX_DEPTH
      requires prevLeftCPL == NextCPL(s, [n]) && (w != null ==> w.nodes == |w.store|)
      requires Grouped() ==>
          StemAdded(store, w.store, s, n, target) && FlushReady(s + [n], n.stem, stop, target, rightCPL)
      modifies WriterFrame(), this`groupBuf, this`groupBufSealed, this`groupStemAtBoundary, this`flushedPaths
      modifies this`rootGroupHash, this`rootGroupHashSet
      ensures rootGroupHashSet == old(rootGroupHashSet)
      ensures w != null && !Grouped() ==> w.store == old(w.store) && w.nodes == old(w.nodes)
      ensures Grouped() ==>
        && w.nodes == |w.store|
        && StoreIs(w.store, s + [n], [item], n.stem, rightCPL, groupDepth)
        && RestBuckets(groupBuf, s + [n], item, groupDepth)
        && BucketsShape(groupBuf, groupStemAtBoundary, item.stem, groupDepth)
        && SealedSubset(groupBufSealed, groupBuf) && FlushedAre(flushedPaths, w.store)
    {
      hide TreeSpec.Node, TreeSpec.Under, BuilderSpec.NodeAt, BuilderSpec.BucketsShape, BuilderSteps.SealedSubset,
        BuilderSpec.Slots, BuilderSpec.StoreGrown, BuilderSpec.FlushedAre, BuilderSpec.BucketsAre,
        BuilderSteps.OnPath, TreeSpec.NonZero, BuilderSteps.RestBuckets, BuilderSpec.StoreIs, TreeSpec.Ascending,
        BuilderSpec.NextCPL, BuilderSteps.PlaceDepth, FlushReady, Groups.StepDepth, TreeSpec.Collapses,
        BuilderSteps.AllSplit;
      ghost var f := s + [n];
      assert f[|f| - 1] == n;
      NeighbourBits(f, item);
      PlaceFacts(s, n, [item], groupDepth);
      ghost var top, cur := FlushCompletedGroupsAbove(rightCPL, f, n.stem, stop, target);
      if Grouped() {
        StorePlaceGrouped(store, w.store, s, n, [item], top, groupDepth);
        RestFromFlush(groupBuf, f, item, cur, target, top, groupDepth);
        ShapeMoves(groupBuf, groupStemAtBoundary, f, item, groupDepth);
      }
    }

    /** Places the deferred n now that item follows, and flushes what n completed. */
    method FeedNext(rightCPL: int, ghost s: seq<Item>, ghost n: Item, ghost item: Item) returns (panicked: bool)
      requires Shape() && Ascending(s + [n]) && Ascending(s + [n] + [item]) && (Grouped() ==> NonZero(s + [n]))
      requires Resting(s, n) && rightCPL == NextCPL(s + [n], [item])
      modifies this`frontier, stack, occupied, isRight, stemBits, WriterFrame()
      modifies this`groupBuf, this`groupBufSealed, this`groupStemAtBoundary, this`flushedPaths
      modifies this`rootGroupHash, this`rootGroupHashSet
      ensures panicked <==> PlaceDepth(s, n, [item], groupDepth) > MAX_DEPTH
      ensures !panicked ==>
        && Shape() && StackAt(s + [n], n.stem, frontier) && rightCPL <= frontier
        && AllSplit(s + [n], n.stem, rightCPL, frontier, groupDepth)
        && Written(s + [n], item, frontier, rightCPL)
    {
      hide TreeSpec.Node, TreeSpec.Under, BuilderSpec.NodeAt, BuilderSpec.BucketsShape, BuilderSteps.SealedSubset,
        BuilderSpec.FlushedAre, BuilderSteps.RestBuckets, BuilderSpec.StoreIs, TreeSpec.Ascending, TreeSpec.NonZero,
        FlushReady, StackAt, BuilderSpec.NextCPL, BuilderSteps.PlaceDepth, BuilderSteps.AllSplit, StemAdded;
      assert Deferred(s, n) && (Grouped() ==> !rootGroupHashSet);
      hide Resting;
      ghost var stop, target, store;
      panicked, stop, target, store := FlushDeferred(rightCPL, s, n, [item]);
      if panicked { return; }
      FlushTransition(rightCPL, s, n, item, stop, target, store);
      frontier := stop;
      AllSplitUpTo(s + [n], n.stem, rightCPL, target as int - 1, stop, groupDepth);
    }

    /** f is placed, and item may be deferred after it. */
    ghost predicate ReadyToDefer(f: seq<Item>, item: Item, c: int)
      reads `frontier, `groupBuf, `groupBufSealed, `groupStemAtBoundary, `flushedPaths, `rootGroupHashSet
      reads stack, occupied, stemBits, WriterFrame()
      requires stack.Length == occupied.Length == stemBits.Length == MAX_DEPTH
    {
      && StackAt(f, TipOf(f, item), frontier)
      && c <= frontier && (f == [] ==> frontier == -1)
      && AllSplit(f, TipOf(f, item), c, frontier, groupDepth)
      && Written(f, item, frontier, c)
    }

    method Defer(stem: Stem, hash: Hash, entries: seq<Entry>, leftCPL: int)
      requires Shape() && Ascending(fed + [Item(stem, hash, entries)]) && (Grouped() ==> NonZero(fed) && hash != Zero)
      requires leftCPL == NextCPL(fed, [Item(stem, hash, entries)]) && TargetDepth(leftCPL + 1, groupDepth) <= MAX_DEPTH
      requires Fits(fed + [Item(stem, hash, entries)], groupDepth)
      requires ReadyToDefer(fed, Item(stem, hash, entries), leftCPL)
      modifies this`hasPrev, this`prevHash, this`prevStem, this`prevLeftCPL, this`prevEntries, this`fed
      ensures Valid() && fed == old(fed) + [Item(stem, hash, entries)]
    {
      hide TreeSpec.Node, TreeSpec.Under, BuilderSpec.StoreIs, TreeSpec.Ascending, Groups.TargetDepth,
        BuilderSpec.NextCPL, ReadyToDefer, Resting, BuilderSteps.Fits;
      assert this !in WriterFrame();
      hasPrev := true;
      prevHash := hash;
      prevStem := stem;
      prevLeftCPL := leftCPL;
      prevEntries := if w != null then entries else [];
      ghost var f := fed;
      fed := fed + [Item(stem, hash, entries)];
      assert fed[..|fed| - 1] == f && fed[|fed| - 1] == Item(stem, hash, entries);
      assert ReadyToDefer(f, Item(stem, hash, entries), leftCPL);
      RestingFromReady(f, Item(stem, hash, entries));
    }

    lemma {:induction false} RestingFromReady(f: seq<Item>, item: Item)
      requires Shape() && Deferred(f, item) && ReadyToDefer(f, item, prevLeftCPL)
      ensures Resting(f, item)
    {
    }

    /** Feeds the next stem: places the deferred one, flushes the groups it completed, and defers the
    new one. An index-out-of-range panic happens exactly when two neighbouring stems branch so deep
    that the extended depth exceeds the stem. */
    method FeedStem(stem: Stem, hash: Hash, entries: seq<Entry>) returns (panicked: bool)
      requires Valid() && Ascending(fed + [Item(stem, hash, entries)]) && (Grouped() ==> hash != Zero)
      modifies this, stack, occupied, isRight, stemBits, WriterFrame()
      ensures panicked <==> !Fits(old(fed) + [Item(stem, hash, entries)], groupDepth)
      ensures !panicked ==> Valid() && fed == old(fed) + [Item(stem, hash, entries)]
    {
      hide TreeSpec.Node, TreeSpec.Under, BuilderSpec.StoreIs, TreeSpec.Ascending, Groups.TargetDepth,
        BuilderSteps.RestBuckets, BuilderSteps.AllSplit, StackAt, BuilderSteps.PlaceDepth, TreeSpec.NonZero,
        BuilderSteps.Fits;
      ghost var item := Item(stem, hash, entries);
      var rightCPL: int := -1;
      FedFacts(fed, item, groupDepth);
      if hasPrev {
        ghost var s, n := fed[..|fed| - 1], fed[|fed| - 1];
        assert fed == s + [n];
        rightCPL := CommonPrefixLen(prevStem, stem);
        panicked := FeedNext(rightCPL, s, n, item);
        if panicked { return; }
      } else {
        panicked := false;
        frontier := -1;
        FirstItem(item, groupDepth);
        EmptyStack(item);
      }
      Defer(stem, hash, entries, rightCPL);
    }

    lemma {:induction false} EmptyStack(item: Item)
      requires Shape() && Empty()
      ensures StackAt([], item.stem, -1)
    {
      forall d | 0 <= d < MAX_DEPTH ensures Under([], item.stem[..d] + [false]) == [] {}
    }

    /** Unwinds everything after the last stem was placed. */
    method UnwindAll(ghost s: seq<Item>, ghost n: Item, ghost stop: int, ghost target: nat)
      requires Shape() && Ascending(s + [n]) && -1 <= stop < target <= MAX_DEPTH && StackAt(s + [n], n.stem, stop)
      requires AllSplit(s + [n], n.stem, -1, target - 1, groupDepth)
      requires w != null ==> w.nodes == |w.store|
      requires Ungrouped() ==> StoreIs(w.store, s + [n], [], n.stem, stop, 0)
      requires Grouped() ==> FlushReady(s + [n], n.stem, stop, target, -1)
      modifies stack, occupied, isRight, stemBits, WriterFrame(), this`groupBuf, this`groupStemAtBoundary
      ensures Shape() && stack[0] == Root(s + [n], groupDepth)
      ensures w != null ==> w.nodes == |w.store|
      ensures Ungrouped() ==> StoreIs(w.store, s + [n], [], n.stem, -1, 0)
      ensures Grouped() ==> w.store == old(w.store) && FlushReady(s + [n], n.stem, -1, target, -1)
    {
      hide TreeSpec.Node, TreeSpec.Under, BuilderSpec.NodeAt, BuilderSpec.Slots, BuilderSpec.StoreIs,
        BuilderSpec.FlushedAre, BuilderSpec.BucketsShape, BuilderSteps.SealedSubset, BuilderSteps.SealedAgree,
        BuilderSpec.BucketsAre, BuilderSpec.Recorded, BuilderSpec.Emitted, TreeSpec.Ascending,
        BuilderSteps.AllSplit, BuilderSteps.OnPath, BuilderSteps.Rightmost;
      ghost var f := s + [n];
      ghost var buf := groupBuf;
      LastOnPath(f);
      LastIsRightmost(f);
      AllSplitUpTo(f, n.stem, -1, target as int - 1, stop, groupDepth);
      if Grouped() {
        SealedAbove(groupBufSealed, buf, f, n.stem, stop, target, groupDepth);
        RecordRest(groupBufSealed, buf, flushedPaths, w.store, f, n.stem, stop, target, groupDepth);
      }
      if Ungrouped() { EmitRest(w.store, f, n.stem, stop); }
      UnwindTo(0, f, n.stem, stop);
    }

    /** The last item fed is still deferred. */
    lemma {:induction false} LastDeferred(s: seq<Item>, n: Item)
      requires Valid() && fed != [] && s == fed[..|fed| - 1] && n == fed[|fed| - 1]
      ensures Shape() && fed == s + [n] && Ascending(s + [n]) && s + [n] + [] == s + [n]
      ensures Resting(s, n) && (Grouped() ==> NonZero(s + [n]) && !rootGroupHashSet)
      ensures prevLeftCPL == NextCPL(s, [n]) && TargetDepth(prevLeftCPL + 1, groupDepth) <= MAX_DEPTH
    {
      hide TreeSpec.Ascending, BuilderSteps.Fits, TreeSpec.NonZero, StackAt, BuilderSpec.StoreIs,
        BuilderSteps.RestBuckets, BuilderSteps.AllSplit, Groups.TargetDepth;
      assert fed == s + [n] && s + [n] + [] == s + [n];
    }

    /** After the last flush the store is final and no bucket is left. */
    lemma {:induction false} AllFlushed(
      s: seq<Item>, n: Item, target: nat, before: Store, store: Store, nodes: nat, top: int, cur: int)
      requires Grouped() && Ascending(s + [n]) && target == PlaceDepth(s, n, [], groupDepth) <= MAX_DEPTH
      requires nodes == |store| && prevLeftCPL == NextCPL(s, [n]) && StemAdded(before, store, s, n, target)
      requires Flushing(top, cur, s + [n], n.stem, target, -1, store, nodes)
      requires top <= -1 < top + groupDepth && StepDepth(top, groupDepth)
      ensures FinalStore(w.store, s + [n], groupDepth) && w.nodes == |w.store| && groupBuf == map[]
    {
      hide TreeSpec.Node, TreeSpec.Under, BuilderSpec.StoreIs, BuilderSpec.FlushedAre, BuilderSpec.BucketsShape,
        BuilderSteps.SealedSubset, BuilderSpec.BucketsAre, BuilderSpec.StoreGrown, TreeSpec.Ascending,
        BuilderSteps.FinalStore, BuilderSteps.PlaceDepth, Groups.StepDepth;
      LastDepth(s, n, groupDepth);
      StorePlaceGrouped(before, w.store, s, n, [], top, groupDepth);
      FinalFromStoreIs(w.store, s + [n], n.stem, groupDepth);
      NoBucketsLeft(groupBuf, groupStemAtBoundary, s + [n], n.stem, cur, target, top, groupDepth);
    }

    lemma {:induction false} NothingFed()
      requires Valid()
      ensures hasPrev <==> fed != []
      ensures fed == [] ==> Shape() && Empty()
    {
      hide TreeSpec.Ascending, BuilderSteps.Fits, Resting, TreeSpec.NonZero;
    }

    /** Places the last stem, resolves everything pending, flushes every remaining group and returns
    the root. The hash recomputed from the root group and the hash combined on the stack agree. */
    method Finish() returns (root: Hash)
      requires Valid()
      modifies this, stack, occupied, isRight, stemBits, WriterFrame()
      ensures fed == old(fed) && root == Root(fed, groupDepth)
      ensures stack.Length > 0 && (fed != [] ==> stack[0] == root)
      ensures w != null ==> FinalStore(w.store, fed, groupDepth) && w.nodes == |w.store|
      ensures Grouped() ==> groupBuf == map[]
    {
      hide TreeSpec.Node, TreeSpec.Under, BuilderSpec.StoreIs, TreeSpec.Ascending, BuilderSteps.AllSplit, Valid,
        Resting, Flushing, StemAdded, BuilderSteps.FinalStore, FlushReady, StackAt, BuilderSteps.PlaceDepth,
        Groups.TargetDepth, BuilderSpec.NextCPL, TreeSpec.NonZero, Groups.StepDepth;
      NothingFed();
      if !hasPrev {
        EmptyTrie(groupDepth);
        return Zero;
      }
      ghost var s, n := fed[..|fed| - 1], fed[|fed| - 1];
      LastDeferred(s, n);
      LastDepth(s, n, groupDepth);
      var panicked;
      ghost var stop, target, store;
      panicked, stop, target, store := FlushDeferred(-1, s, n, []);
      assert !panicked;
      UnwindAll(s, n, stop, target);
      ghost var (before, nodes) := if w == null then (map[], 0) else (w.store, w.nodes);
      ghost var top, cur := FlushCompletedGroupsAbove(-1, fed, n.stem, -1, target);
      if Grouped() {
        AllFlushed(s, n, target, store, before, nodes, top, cur);
      } else if w != null {
        FinalFromStoreIs(w.store, fed, n.stem, 0);
      }
      if w != null && groupDepth > 0 && rootGroupHashSet {
        return rootGroupHash;
      }
      return stack[0];
    }
  }
}
