/** The hash of a stem node: an eight-level Merkle reduction of 256 value slots, done in place. */
module StemHash {
  import opened Wrappers
  import opened Stems
  import opened TreeSpec
  import opened Groups

  const STEM_NODE_WIDTH: nat := 256

  /** The hashed values of a stem by suffix; a later entry for the same suffix wins. */
  function ValueSlots(entries: seq<Entry>): map<nat, Hash> {
    if entries == [] then map[]
    else
      var e := entries[|entries| - 1];
      ValueSlots(entries[..|entries| - 1])[e.suffix := Leaf(e.value)]
  }

  /** Hash of the node of a stem: the stem and the recursive Merkle root of its 256 slots, in which two
  empty halves are empty. */
  function StemNodeHash(stem: Stem, entries: seq<Entry>): Hash {
    StemRoot(stem, ReaderHash(ValueSlots(entries), 8, 0))
  }

  /** data holds, in its first n cells, the given level of the Merkle tree of m. */
  ghost predicate LevelIs(data: seq<Hash>, m: map<nat, Hash>, height: nat, n: nat) {
    n <= |data| && forall i :: 0 <= i < n ==> data[i] == ReaderHash(m, height, i)
  }

  lemma {:induction false} ValueSlotsSnoc(entries: seq<Entry>, e: Entry)
    ensures ValueSlots(entries + [e]) == ValueSlots(entries)[e.suffix := Leaf(e.value)]
  {
    assert (entries + [e])[..|entries|] == entries;
  }

  lemma {:induction false} PutLeaf(data: seq<Hash>, m: map<nat, Hash>, i: nat, h: Hash)
    requires LevelIs(data, m, 0, STEM_NODE_WIDTH) && i < STEM_NODE_WIDTH
    ensures LevelIs(data[i := h], m[i := h], 0, STEM_NODE_WIDTH)
  {
  }

  // ----- what a stem hash is, seen from its leaves

  /** Going down from h, right for true and left for false; an empty subtree is empty all the way down, and
  any other hash has no halves. */
  function Follow(h: Hash, bits: Path): Option<Hash> {
    if bits == [] then Some(h) else
      match h
      case Pair(l, r) => Follow(if bits[0] then r else l, bits[1..])
      case Zero => Some(Zero)
      case _ => None
  }

  /** No pair has two empty halves. */
  predicate Compact(h: Hash) {
    h.Pair? ==> !(h.left == Zero && h.right == Zero) && Compact(h.left) && Compact(h.right)
  }

  /** Entry i is the last one for suffix t. */
  predicate LastFor(entries: seq<Entry>, i: int, t: nat) {
    0 <= i < |entries| && entries[i].suffix == t && forall j :: i < j < |entries| ==> entries[j].suffix != t
  }

  predicate Absent(entries: seq<Entry>, t: nat) {
    forall i :: 0 <= i < |entries| ==> entries[i].suffix != t
  }

  /** h is the leaf of the last value given for suffix t, or empty where none is given. */
  ghost predicate IsLeafFor(entries: seq<Entry>, t: nat, h: Hash) {
    && (forall i :: LastFor(entries, i, t) ==> h == Leaf(entries[i].value))
    && (Absent(entries, t) ==> h == Zero)
  }

  /** The eight bits of every suffix, most significant first, lead to its leaf. */
  ghost predicate LeavesAre(inner: Hash, entries: seq<Entry>) {
    forall t: nat :: t < 256 ==>
      Follow(inner, ToBits(t, 8)).Some? && IsLeafFor(entries, t, Follow(inner, ToBits(t, 8)).value)
  }

  /** h is the hash of the stem with these entries. */
  ghost predicate IsStemHash(h: Hash, stem: Stem, entries: seq<Entry>) {
    h.StemRoot? && h.stem == stem && Compact(h.inner) && LeavesAre(h.inner, entries)
  }

  function SlotIn(m: map<nat, Hash>, t: nat): Hash { if t in m then m[t] else Zero }

  /** Following the bits behind a path p of the reduction leads to the slot of both together. */
  lemma {:induction false} FollowReader(m: map<nat, Hash>, p: Path, bits: Path)
    ensures Follow(ReaderHash(m, |bits|, SlotOf(p)), bits) == Some(SlotIn(m, SlotOf(p + bits)))
    decreases |bits|
  {
    if bits == [] {
      assert p + bits == p;
    } else {
      var q := p + [bits[0]];
      assert q[..|p|] == p && q + bits[1..] == p + bits;
      FollowReader(m, q, bits[1..]);
      var l, r := ReaderHash(m, |bits| - 1, 2 * SlotOf(p)), ReaderHash(m, |bits| - 1, 2 * SlotOf(p) + 1);
      assert SlotOf(q) == 2 * SlotOf(p) + if bits[0] then 1 else 0;
      assert ReaderHash(m, |bits|, SlotOf(p)) == PairOrEmpty(l, r);
      FollowZero(bits[1..]);
    }
  }

  lemma {:induction false} FollowZero(bits: Path)
    ensures Follow(Zero, bits) == Some(Zero)
  {
  }

  lemma {:induction false} ReaderCompact(m: map<nat, Hash>, height: nat, i: nat)
    requires forall t :: t in m ==> Compact(m[t])
    ensures Compact(ReaderHash(m, height, i))
    decreases height
  {
    if height > 0 {
      ReaderCompact(m, height - 1, 2 * i);
      ReaderCompact(m, height - 1, 2 * i + 1);
    }
  }

  lemma {:induction false} SlotsAreLeaves(entries: seq<Entry>, t: nat)
    ensures IsLeafFor(entries, t, SlotIn(ValueSlots(entries), t))
    ensures forall u :: u in ValueSlots(entries) ==> ValueSlots(entries)[u].Leaf?
    decreases |entries|
  {
    if entries != [] {
      var init, e := entries[..|entries| - 1], entries[|entries| - 1];
      SlotsAreLeaves(init, t);
      assert entries == init + [e];
      if e.suffix != t {
        forall i | LastFor(entries, i, t) ensures LastFor(init, i, t) {}
        assert Absent(entries, t) ==> Absent(init, t);
      }
    }
  }

  /** The recursive root has exactly the leaves of the entries. */
  lemma {:induction false} StemNodeHashIs(stem: Stem, entries: seq<Entry>)
    ensures IsStemHash(StemNodeHash(stem, entries), stem, entries)
  {
    hide IsLeafFor, ValueSlots, Follow, Groups.ReaderHash, Groups.ToBits, Groups.SlotOf;
    var m := ValueSlots(entries);
    SlotsAreLeaves(entries, 0);
    ReaderCompact(m, 8, 0);
    EmptySlot();
    forall t: nat | t < 256 ensures Follow(ReaderHash(m, 8, 0), ToBits(t, 8)) == Some(SlotIn(m, t)) {
      FollowReader(m, [], ToBits(t, 8));
      assert [] + ToBits(t, 8) == ToBits(t, 8);
      SlotOfToBits(t, 8);
      Widths();
    }
    forall t: nat | t < 256 ensures IsLeafFor(entries, t, SlotIn(m, t)) { SlotsAreLeaves(entries, t); }
  }

  lemma {:induction false} EmptySlot()
    ensures SlotOf([]) == 0
  {
  }

  /** Every path of k bits ends in h. */
  ghost predicate Reaches(h: Hash, k: nat) {
    forall bits: Path :: |bits| == k ==> Follow(h, bits).Some?
  }

  lemma {:induction false} ReachesHalves(h: Hash, k: nat)
    requires h.Pair? && k > 0 && Reaches(h, k)
    ensures Reaches(h.left, k - 1) && Reaches(h.right, k - 1)
    ensures forall bits: Path :: |bits| == k - 1 ==>
        Follow(h.left, bits) == Follow(h, [false] + bits) && Follow(h.right, bits) == Follow(h, [true] + bits)
  {
    forall bits: Path | |bits| == k - 1
      ensures Follow(h.left, bits) == Follow(h, [false] + bits) && Follow(h.right, bits) == Follow(h, [true] + bits)
      ensures Follow(h.left, bits).Some? && Follow(h.right, bits).Some?
    {
      assert ([false] + bits)[1..] == bits && ([true] + bits)[1..] == bits;
      assert |[false] + bits| == k && |[true] + bits| == k;
    }
  }

  /** A hash that is not empty has a leaf that is not. */
  lemma {:induction false} SomeLeaf(h: Hash, k: nat) returns (bits: Path)
    requires Compact(h) && Reaches(h, k) && h != Zero
    ensures |bits| == k && Follow(h, bits) != Some(Zero)
    decreases k
  {
    bits := [];
    if k > 0 {
      var zeros := ZeroPath(k);
      assert Follow(h, zeros).Some?;
      ReachesHalves(h, k);
      var right := h.left == Zero;
      var rest := SomeLeaf(if right then h.right else h.left, k - 1);
      bits := [right] + rest;
    }
  }

  lemma {:induction false} ZeroPath(k: nat) returns (bits: Path)
    ensures |bits| == k
  {
    bits := seq(k, _ => false);
  }

  /** Leaves determine the hash. */
  lemma {:induction false} LeavesDetermine(a: Hash, b: Hash, k: nat)
    requires Compact(a) && Compact(b) && Reaches(a, k)
    requires forall bits: Path :: |bits| == k ==> Follow(a, bits) == Follow(b, bits)
    ensures a == b
    decreases k
  {
    var zeros := ZeroPath(k);
    assert Follow(a, zeros) == Follow(b, zeros);
    assert Reaches(b, k);
    if k > 0 {
      if a == Zero || b == Zero {
        if a != Zero {
          var bits := SomeLeaf(a, k);
        } else if b != Zero {
          var bits := SomeLeaf(b, k);
        }
      } else {
        ReachesHalves(a, k);
        ReachesHalves(b, k);
        LeavesDetermine(a.left, b.left, k - 1);
        LeavesDetermine(a.right, b.right, k - 1);
      }
    }
  }

  /** The last value for a suffix, if any, decides its leaf. */
  lemma {:induction false} LeafUnique(entries: seq<Entry>, t: nat, a: Hash, b: Hash)
    requires IsLeafFor(entries, t, a) && IsLeafFor(entries, t, b)
    ensures a == b && (a == Zero <==> Absent(entries, t))
  {
    if !Absent(entries, t) {
      var i := |entries| - 1;
      while entries[i].suffix != t
        invariant 0 <= i < |entries| && forall j :: i < j < |entries| ==> entries[j].suffix != t
        decreases i
      {
        if i == 0 { assert Absent(entries, t); }
        i := i - 1;
      }
      assert LastFor(entries, i, t);
    }
  }

  lemma {:induction false} EveryPathIsSuffix(bits: Path)
    requires |bits| == 8
    ensures SlotOf(bits) < 256 && ToBits(SlotOf(bits), 8) == bits
  {
    ToBitsSlotOf(bits);
    Widths();
  }

  /** A stem and the values given for its suffixes have one hash. */
  lemma {:induction false} StemHashUnique(stem: Stem, entries: seq<Entry>, a: Hash, b: Hash)
    requires IsStemHash(a, stem, entries) && IsStemHash(b, stem, entries)
    ensures a == b
  {
    hide IsLeafFor, Groups.ToBits, Groups.SlotOf, Compact, Follow;
    forall bits: Path | |bits| == 8
      ensures Follow(a.inner, bits).Some? && Follow(a.inner, bits) == Follow(b.inner, bits)
    {
      EveryPathIsSuffix(bits);
      var t := SlotOf(bits);
      LeafUnique(entries, t, Follow(a.inner, bits).value, Follow(b.inner, bits).value);
    }
    LeavesDetermine(a.inner, b.inner, 8);
  }

  /** Equal hashes come from the same stem and, for every suffix, from the same last value. */
  lemma {:induction false} StemHashInjective(
    stem: Stem, entries: seq<Entry>, other: Stem, others: seq<Entry>, t: nat)
    requires StemNodeHash(stem, entries) == StemNodeHash(other, others) && t < 256
    ensures stem == other && (Absent(entries, t) <==> Absent(others, t))
    ensures forall i, j :: LastFor(entries, i, t) && LastFor(others, j, t) ==> entries[i].value == others[j].value
  {
    hide Groups.ToBits, Compact, Follow, LastFor, Absent;
    StemNodeHashIs(stem, entries);
    StemNodeHashIs(other, others);
    var h := Follow(StemNodeHash(stem, entries).inner, ToBits(t, 8)).value;
    LeafUnique(entries, t, h, h);
    LeafUnique(others, t, h, h);
  }

  // ----- computing it

  method ComputeStemNodeHash(stem: Stem, entries: seq<Entry>) returns (h: Hash)
    ensures IsStemHash(h, stem, entries)
    ensures h == StemNodeHash(stem, entries)
  {
    hide IsStemHash;
    var data := new Hash[STEM_NODE_WIDTH](_ => Zero);
    for k := 0 to |entries|
      invariant LevelIs(data[..], ValueSlots(entries[..k]), 0, STEM_NODE_WIDTH)
    {
      assert entries[..k + 1][..k] == entries[..k];
      data[entries[k].suffix] := Leaf(entries[k].value);
    }
    assert entries[..|entries|] == entries;
    h := ReduceStem(stem, data, ValueSlots(entries));
    StemNodeHashIs(stem, entries);
  }

  /** The reduction shared by hashing entries and hashing a serialized node. */
  method ReduceStem(stem: Stem, data: array<Hash>, ghost m: map<nat, Hash>) returns (h: Hash)
    requires data.Length == STEM_NODE_WIDTH && LevelIs(data[..], m, 0, STEM_NODE_WIDTH)
    modifies data
    ensures h == StemRoot(stem, ReaderHash(m, 8, 0))
  {
    var level := 1;
    var count := STEM_NODE_WIDTH / 2;
    Widths();
    while level <= 8
      invariant 1 <= level <= 9 && (level <= 8 ==> count == Pow2(8 - level)) && (level == 9 ==> count == 0)
      invariant LevelIs(data[..], m, level - 1, Pow2(9 - level))
    {
      ReduceInPlace(data, count, m, level - 1);
      level := level + 1;
      count := count / 2;
    }
    h := StemRoot(stem, data[0]);
  }

  lemma {:induction false} Widths()
    ensures Pow2(8) == 256 && Pow2(7) == 128 && Pow2(0) == 1
    ensures forall k: nat :: Pow2(k + 1) == 2 * Pow2(k)
  {
  }

  /** One level, in place: cell i is overwritten after cells 2i and 2i+1 were read. */
  method ReduceInPlace(data: array<Hash>, count: nat, ghost m: map<nat, Hash>, ghost height: nat)
    requires 2 * count <= data.Length && LevelIs(data[..], m, height, 2 * count)
    modifies data
    ensures LevelIs(data[..], m, height + 1, count)
  {
    ghost var before := data[..];
    for i := 0 to count
      invariant LevelIs(data[..], m, height + 1, i)
      invariant forall j :: i <= j < data.Length ==> data[j] == before[j]
    {
      var l, r := data[2 * i], data[2 * i + 1];
      assert l == ReaderHash(m, height, 2 * i) && r == ReaderHash(m, height, 2 * i + 1);
      if l == Zero && r == Zero {
        data[i] := Zero;
      } else {
        data[i] := Pair(l, r);
      }
    }
  }
}
