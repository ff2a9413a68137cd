/** The store as bytes, for any hash function of 32 bytes that never returns zero. A reader that recomputes hashes
from the stored bytes alone meets, in every slot and at the root, the hashes the builder computed. */
module BlobStore {
  import opened Stems
  import opened TreeSpec
  import opened Groups
  import opened BuilderSpec
  import opened BuilderSteps
  import opened StemHash
  import opened NodeCodec
  import opened StemBytes
  import opened TrieReader
  import opened TrieRun

  type Bytes = seq<Byte>

  const ZERO_HASH: Bytes :=
    [0, 0, 0, 0, 0, 0, 0, 0, 0, 0, 0, 0, 0, 0, 0, 0,
     0, 0, 0, 0, 0, 0, 0, 0, 0, 0, 0, 0, 0, 0, 0, 0]

  /** A hash function: 32 bytes, never all zero. */
  ghost predicate IsHash(sha: Bytes -> Bytes) {
    forall x :: |sha(x)| == HASH_SIZE && sha(x) != ZERO_HASH
  }

  // ----- stems as bytes

  /** The 31 bytes of a stem. */
  function BytesOfStem(x: Stem): (b: Bytes)
    ensures |b| == STEM_SIZE
  {
    seq(STEM_SIZE, i requires 0 <= i < STEM_SIZE => ByteOf(x[8 * i..8 * i + 8]))
  }

  function ByteOf(bits: seq<bool>): Byte
    requires |bits| == 8
  {
    ToBitsSlotOf(bits);
    assert Pow2(8) == 256;
    SlotOf(bits)
  }

  lemma {:induction false} BitOfByteOf(bits: seq<bool>, k: nat)
    requires |bits| == 8 && k < 8
    ensures BitOf(ByteOf(bits), k) == bits[k]
  {
    ToBitsSlotOf(bits);
  }

  lemma {:induction false} StemRoundTrip(x: Stem)
    ensures StemOfBytes(BytesOfStem(x)) == x
  {
    hide BitOf, ByteOf;
    forall d | 0 <= d < MAX_DEPTH ensures StemOfBytes(BytesOfStem(x))[d] == x[d] {
      BitOfByteOf(x[8 * (d / 8)..8 * (d / 8) + 8], d % 8);
    }
  }

  // ----- hashes as bytes

  /** The bytes of a hash term. */
  function Digest(sha: Bytes -> Bytes, h: Hash): Bytes {
    match h
    case Zero => ZERO_HASH
    case Leaf(v) => sha(v)
    case Pair(l, r) => sha(Digest(sha, l) + Digest(sha, r))
    case StemRoot(p, inner) => sha(PathBytes(p) + [0] + Digest(sha, inner))
  }

  function PathBytes(p: Path): Bytes {
    if |p| == MAX_DEPTH then BytesOfStem(p) else []
  }

  /** Only the empty subtree has the zero hash. */
  lemma {:induction false} DigestFacts(sha: Bytes -> Bytes, h: Hash)
    requires IsHash(sha)
    ensures |Digest(sha, h)| == HASH_SIZE && (Digest(sha, h) == ZERO_HASH <==> h == Zero)
  {
  }

  function DigestWith(sha: Bytes -> Bytes): Hash -> Bytes { h => Digest(sha, h) }

  lemma {:induction false} DigestsAreDigests(sha: Bytes -> Bytes)
    requires IsHash(sha)
    ensures IsDigest(DigestWith(sha))
  {
    forall h: Hash ensures |DigestWith(sha)(h)| == HASH_SIZE { DigestFacts(sha, h); }
  }

  /** A group or a stem's values hashed from the bytes of the present slots: two empty halves are empty. */
  function ByteHash(sha: Bytes -> Bytes, m: map<nat, Bytes>, height: nat, i: nat): Bytes
    decreases height, |m|
  {
    if height == 0 then (if i in m then m[i] else ZERO_HASH)
    else JoinBytes(sha, ByteHash(sha, m, height - 1, 2 * i), ByteHash(sha, m, height - 1, 2 * i + 1))
  }

  function JoinBytes(sha: Bytes -> Bytes, l: Bytes, r: Bytes): Bytes {
    if l == ZERO_HASH && r == ZERO_HASH then ZERO_HASH else sha(l + r)
  }

  lemma {:induction false} JoinIs(sha: Bytes -> Bytes, l: Hash, r: Hash)
    requires IsHash(sha)
    ensures JoinBytes(sha, Digest(sha, l), Digest(sha, r)) == Digest(sha, PairOrEmpty(l, r))
  {
    DigestFacts(sha, l);
    DigestFacts(sha, r);
  }

  lemma {:induction false} ZeroDigest(sha: Bytes -> Bytes)
    ensures Digest(sha, Zero) == ZERO_HASH
  {
  }

  /** b holds the bytes of the hashes in m. */
  ghost predicate DigestsOf(sha: Bytes -> Bytes, b: map<nat, Bytes>, m: map<nat, Hash>) {
    b.Keys == m.Keys && forall t :: t in m ==> b[t] == Digest(sha, m[t])
  }

  lemma {:induction false} ByteHashIs(sha: Bytes -> Bytes, b: map<nat, Bytes>, m: map<nat, Hash>, height: nat, i: nat)
    requires IsHash(sha) && DigestsOf(sha, b, m)
    ensures ByteHash(sha, b, height, i) == Digest(sha, ReaderHash(m, height, i))
    decreases height
  {
    hide Digest, JoinBytes, Groups.PairOrEmpty, IsHash;
    if height > 0 {
      ByteHashIs(sha, b, m, height - 1, 2 * i);
      ByteHashIs(sha, b, m, height - 1, 2 * i + 1);
      JoinIs(sha, ReaderHash(m, height - 1, 2 * i), ReaderHash(m, height - 1, 2 * i + 1));
    } else {
      ZeroDigest(sha);
    }
  }

  // ----- nodes as bytes

  function BitsFrom(slots: seq<nat>, j: nat): (b: seq<bool>)
    ensures |b| == 8
  {
    seq(8, k requires 0 <= k < 8 => 8 * j + k in slots)
  }

  /** A bitmap with exactly the given slots set. */
  function Bitmap(slots: seq<nat>, size: nat): (b: Bytes)
    ensures |b| == size
  {
    seq(size, j requires 0 <= j < size => ByteOf(BitsFrom(slots, j)))
  }

  lemma {:induction false} BitmapHas(slots: seq<nat>, size: nat, i: nat)
    requires i < 8 * size
    ensures BitSet(Bitmap(slots, size), i) <==> i in slots
  {
    hide BitOf, ByteOf;
    BitOfByteOf(BitsFrom(slots, i / 8), i % 8);
    assert 8 * (i / 8) + i % 8 == i;
  }

  /** A bitmap is determined by its bits. */
  lemma {:induction false} BitmapUnique(b: Bytes, slots: seq<nat>)
    requires forall i: nat :: i < 8 * |b| ==> (BitSet(b, i) <==> i in slots)
    ensures b == Bitmap(slots, |b|)
  {
    hide BitOf, Bitmap;
    var c := Bitmap(slots, |b|);
    forall j | 0 <= j < |b| ensures b[j] == c[j] {
      forall k: nat | k < 8 ensures BitOf(b[j], k) == BitOf(c[j], k) {
        BitmapHas(slots, |b|, 8 * j + k);
        assert (8 * j + k) / 8 == j && (8 * j + k) % 8 == k;
        assert BitSet(b, 8 * j + k) == BitOf(b[j], k) && BitSet(c, 8 * j + k) == BitOf(c[j], k);
      }
      EqualBits(b[j], c[j]);
    }
  }

  /** The bytes stored for a node. */
  function Blob(sha: Bytes -> Bytes, node: TrieNode): Bytes {
    match node
    case StemNode(stem, entries) =>
      [1] + BytesOfStem(stem) + Bitmap(Suffixes(entries), HASH_SIZE) + Packed(entries)
    case InternalNode(l, r) => [2] + Digest(sha, l) + Digest(sha, r)
    case GroupNode(gd, children) =>
      [2, gd % 256] + Bitmap(ChildSlots(children), BitmapSizeForDepth(gd))
      + HashFields(children, DigestWith(sha))
  }

  /** What the serializers write are these bytes. */
  method StemBlob(sha: Bytes -> Bytes, stem: Stem, entries: seq<Entry>) returns (blob: Bytes)
    ensures blob == Blob(sha, StemNode(stem, entries))
  {
    hide BytesOfStem, Packed, Bitmap;
    blob := SerializeStemNode(BytesOfStem(stem), entries);
    BitmapUnique(blob[32..64], Suffixes(entries));
    assert blob == [blob[0]] + blob[1..32] + blob[32..64] + blob[64..];
  }

  method GroupBlob(sha: Bytes -> Bytes, gd: nat, children: seq<GroupChild>) returns (blob: Bytes)
    requires IsHash(sha) && forall i :: 0 <= i < |children| ==> children[i].slot < Pow2(gd)
    ensures blob == Blob(sha, GroupNode(gd, children))
  {
    hide Bitmap, HashFields, Digest;
    DigestsAreDigests(sha);
    blob := SerializeGroupedInternalNode(gd, children, DigestWith(sha));
    var n := BitmapSizeForDepth(gd);
    BitmapUnique(blob[2..2 + n], ChildSlots(children));
    assert blob == [blob[0], blob[1]] + blob[2..2 + n] + blob[2 + n..];
  }

  // ----- reading hashes back

  /** The hashed values by suffix. */
  function ValueDigests(sha: Bytes -> Bytes, entries: seq<Entry>): map<nat, Bytes> {
    if entries == [] then map[]
    else
      var e := entries[|entries| - 1];
      ValueDigests(sha, entries[..|entries| - 1])[e.suffix := sha(e.value)]
  }

  lemma {:induction false} ValueDigestsAre(sha: Bytes -> Bytes, entries: seq<Entry>)
    ensures DigestsOf(sha, ValueDigests(sha, entries), ValueSlots(entries))
    decreases |entries|
  {
    if entries != [] { ValueDigestsAre(sha, entries[..|entries| - 1]); }
  }

  function RawMap(raw: seq<RawChild>): map<nat, Bytes> {
    if raw == [] then map[] else RawMap(raw[..|raw| - 1])[raw[|raw| - 1].slot := raw[|raw| - 1].digest]
  }

  lemma {:induction false} RawMapIs(sha: Bytes -> Bytes, children: seq<GroupChild>)
    ensures DigestsOf(sha, RawMap(RawChildren(children, DigestWith(sha))), ChildMap(children))
    decreases |children|
  {
    if children != [] {
      var init := children[..|children| - 1];
      RawMapIs(sha, init);
      var raw := RawChildren(children, DigestWith(sha));
      assert raw[..|raw| - 1] == RawChildren(init, DigestWith(sha));
    }
  }

  /** The children of a serialized group with a bitmap of n bytes. */
  function FieldsFrom(blob: Bytes, n: nat): map<nat, Bytes>
    requires |blob| >= 2 + n && n == BitmapSizeForDepth(blob[1])
  {
    RawMap(ReadChildren(blob[2..2 + n], blob[2 + n..], Pow2(blob[1])))
  }

  function GroupFields(blob: Bytes): map<nat, Bytes> {
    if |blob| < 2 || |blob| < 2 + BitmapSizeForDepth(blob[1]) then map[]
    else FieldsFrom(blob, BitmapSizeForDepth(blob[1]))
  }

  /** The hash of a stored node, computed from its bytes alone. */
  function BlobHash(sha: Bytes -> Bytes, blob: Bytes): Bytes {
    if blob == [] then ZERO_HASH
    else if blob[0] == NODE_TYPE_STEM then
      (if |blob| < 64 then ZERO_HASH
       else
         var values := ValueDigests(sha, ReadEntries(blob[32..64], blob[64..], 256));
         sha(blob[1..32] + [0] + ByteHash(sha, values, 8, 0)))
    else if |blob| == 65 then sha(blob[1..])
    else if |blob| < 2 then ZERO_HASH
    else ByteHash(sha, GroupFields(blob), blob[1], 0)
  }

  /** The root of a row of hashes: halves are hashed together, and two empty halves are empty. */
  function MerkleRoot(sha: Bytes -> Bytes, row: seq<Bytes>): Bytes
    decreases |row|
  {
    if row == [] then ZERO_HASH
    else if |row| == 1 then row[0]
    else
      var l, r := MerkleRoot(sha, row[..|row| / 2]), MerkleRoot(sha, row[|row| / 2..]);
      if l == ZERO_HASH && r == ZERO_HASH then ZERO_HASH else sha(l + r)
  }

  /** A stem's 256 hashed values in the order of their suffixes; zero where none is given. */
  ghost predicate IsValueRow(sha: Bytes -> Bytes, entries: seq<Entry>, row: seq<Bytes>) {
    && |row| == 256
    && forall t :: 0 <= t < 256 ==>
         && (forall i :: LastFor(entries, i, t) ==> row[t] == sha(entries[i].value))
         && (Absent(entries, t) ==> row[t] == ZERO_HASH)
  }

  /** The row holds the fields from base on. */
  predicate IsRow(m: map<nat, Bytes>, base: nat, row: seq<Bytes>) {
    forall j: nat :: j < |row| ==> row[j] == FieldOf(m, base + j)
  }

  lemma {:induction false} RootOfRow(sha: Bytes -> Bytes, m: map<nat, Bytes>, height: nat, i: nat, row: seq<Bytes>)
    requires |row| == Pow2(height) && IsRow(m, i * |row|, row)
    ensures MerkleRoot(sha, row) == ByteHash(sha, m, height, i)
    decreases height
  {
    hide FieldOf, IsRow, MerkleRoot, ByteHash, JoinBytes;
    if height == 0 {
      SingleRow(sha, m, i, row);
      SingleField(sha, m, i);
    } else {
      var n := Pow2(height - 1);
      RowHalves(m, i, n, row);
      RootOfRow(sha, m, height - 1, 2 * i, row[..n]);
      RootOfRow(sha, m, height - 1, 2 * i + 1, row[n..]);
      RootSteps(sha, m, height, i, n, row);
    }
  }

  lemma {:induction false} RootSteps(
    sha: Bytes -> Bytes, m: map<nat, Bytes>, height: nat, i: nat, n: nat, row: seq<Bytes>)
    requires height > 0 && n > 0 && |row| == 2 * n
    ensures MerkleRoot(sha, row) == JoinBytes(sha, MerkleRoot(sha, row[..n]), MerkleRoot(sha, row[n..]))
    ensures ByteHash(sha, m, height, i) ==
            JoinBytes(sha, ByteHash(sha, m, height - 1, 2 * i), ByteHash(sha, m, height - 1, 2 * i + 1))
  {
    assert |row| / 2 == n;
  }

  lemma {:induction false} SingleRow(sha: Bytes -> Bytes, m: map<nat, Bytes>, i: nat, row: seq<Bytes>)
    requires |row| == 1 && IsRow(m, i * |row|, row)
    ensures MerkleRoot(sha, row) == FieldOf(m, i)
  {
    hide FieldOf;
    assert row[0] == FieldOf(m, i + 0);
  }

  lemma {:induction false} SingleField(sha: Bytes -> Bytes, m: map<nat, Bytes>, i: nat)
    ensures ByteHash(sha, m, 0, i) == FieldOf(m, i)
  {
  }

  lemma {:induction false} RowHalves(m: map<nat, Bytes>, i: nat, n: nat, row: seq<Bytes>)
    requires |row| == 2 * n && IsRow(m, i * |row|, row)
    ensures IsRow(m, (2 * i) * n, row[..n]) && IsRow(m, (2 * i + 1) * n, row[n..])
  {
    var base := i * |row|;
    assert base == (2 * i) * n && base + n == (2 * i + 1) * n;
    RowSplits(m, base, n, row);
  }

  lemma {:induction false} RowSplits(m: map<nat, Bytes>, base: nat, n: nat, row: seq<Bytes>)
    requires n <= |row| && IsRow(m, base, row)
    ensures IsRow(m, base, row[..n]) && IsRow(m, base + n, row[n..])
  {
    hide FieldOf;
    forall j: nat | j < |row| - n ensures row[n..][j] == FieldOf(m, base + n + j) {
      assert row[n + j] == FieldOf(m, base + (n + j));
    }
  }

  /** The hashed values by suffix are the row. */
  lemma {:induction false} RowIs(sha: Bytes -> Bytes, entries: seq<Entry>, row: seq<Bytes>, t: nat)
    requires IsValueRow(sha, entries, row) && t < 256
    ensures row[t] == FieldOf(ValueDigests(sha, entries), t)
  {
    hide ValueDigests, StemHash.ValueSlots;
    ValueDigestsAre(sha, entries);
    SlotsAreLeaves(entries, t);
    var h := SlotIn(ValueSlots(entries), t);
    LeafUnique(entries, t, h, h);
    if h != Zero { LastExists(entries, t); }
  }

  lemma {:induction false} LastExists(entries: seq<Entry>, t: nat)
    ensures Absent(entries, t) || exists i :: LastFor(entries, i, t)
    decreases |entries|
  {
    if entries != [] {
      var n := |entries| - 1;
      LastExists(entries[..n], t);
      if entries[n].suffix == t {
        assert LastFor(entries, n, t);
      } else if i :| LastFor(entries[..n], i, t) {
        assert LastFor(entries, i, t);
      }
    }
  }

  lemma {:induction false} ValueRoot(sha: Bytes -> Bytes, entries: seq<Entry>, row: seq<Bytes>)
    requires IsValueRow(sha, entries, row)
    ensures ByteHash(sha, ValueDigests(sha, entries), 8, 0) == MerkleRoot(sha, row)
  {
    hide IsValueRow, ValueDigests, FieldOf, ByteHash, MerkleRoot;
    RowLength(sha, entries, row);
    forall t: nat | t < 256 ensures row[t] == FieldOf(ValueDigests(sha, entries), t) { RowIs(sha, entries, row, t); }
    RootOfRow(sha, ValueDigests(sha, entries), 8, 0, row);
  }

  lemma {:induction false} RowLength(sha: Bytes -> Bytes, entries: seq<Entry>, row: seq<Bytes>)
    requires IsValueRow(sha, entries, row)
    ensures |row| == 256 == Pow2(8)
  {
    StemHash.Widths();
  }

  /** The bytes of a stem's hash: its 31 bytes, a zero byte and the root of its 256 hashed values. */
  lemma {:induction false} StemDigest(
    sha: Bytes -> Bytes, h: Hash, stem: Stem, entries: seq<Entry>, row: seq<Bytes>)
    requires IsHash(sha) && IsStemHash(h, stem, entries) && IsValueRow(sha, entries, row)
    ensures Digest(sha, h) == sha(BytesOfStem(stem) + [0] + MerkleRoot(sha, row))
  {
    StemNodeHashIs(stem, entries);
    StemHashUnique(stem, entries, h, StemNodeHash(stem, entries));
    hide IsValueRow, ValueDigests, StemHash.ValueSlots, ByteHash, MerkleRoot, BytesOfStem, Groups.ReaderHash,
      StemHash.IsStemHash, IsHash;
    ValueDigestsAre(sha, entries);
    ByteHashIs(sha, ValueDigests(sha, entries), ValueSlots(entries), 8, 0);
    ValueRoot(sha, entries, row);
  }

  /** The hash of any bytes of a stem node: bytes 1 to 31, a zero byte and the root of the values read. */
  lemma {:induction false} StemBytesHash(sha: Bytes -> Bytes, blob: Bytes, row: seq<Bytes>)
    requires |blob| >= 64 && blob[0] == 1
    requires IsValueRow(sha, ReadEntries(blob[32..64], blob[64..], 256), row)
    ensures BlobHash(sha, blob) == sha(blob[1..32] + [0] + MerkleRoot(sha, row))
  {
    hide IsValueRow, ValueDigests, ByteHash, MerkleRoot, ReadEntries;
    ValueRoot(sha, ReadEntries(blob[32..64], blob[64..], 256), row);
  }

  /** The hash of the bytes of an internal node: both hashes together, or the root of a group's slots. */
  lemma {:induction false} InternalBytesHash(sha: Bytes -> Bytes, blob: Bytes, row: seq<Bytes>)
    requires |blob| >= 2 && blob[0] == 2
    requires |row| == Pow2(blob[1]) && forall t: nat :: t < |row| ==> row[t] == SlotField(blob, t)
    ensures BlobHash(sha, blob) == if |blob| == 65 then sha(blob[1..]) else MerkleRoot(sha, row)
  {
    hide ByteHash, MerkleRoot, GroupFields, Groups.Pow2, FieldOf;
    RootOfRow(sha, GroupFields(blob), blob[1], 0, row);
  }

  /** Strictly ascending suffixes with 32-byte values. */
  predicate CanonicalEntries(entries: seq<Entry>) {
    AscendingNats(Suffixes(entries)) && WholeValues(entries)
  }

  lemma {:induction false} StemBlobHash(sha: Bytes -> Bytes, stem: Stem, entries: seq<Entry>)
    requires IsHash(sha) && CanonicalEntries(entries)
    ensures BlobHash(sha, Blob(sha, StemNode(stem, entries))) == Digest(sha, StemNodeHash(stem, entries))
  {
    hide BytesOfStem, Packed, Bitmap, ReadEntries, ByteHash, Groups.ReaderHash, BitSet, AscendingNats;
    var blob := Blob(sha, StemNode(stem, entries));
    var bits := Bitmap(Suffixes(entries), HASH_SIZE);
    assert blob[1..32] == BytesOfStem(stem) && blob[32..64] == bits && blob[64..] == Packed(entries);
    forall i: nat | i < 256 ensures BitSet(blob[32..64], i) <==> i in Suffixes(entries) {
      BitmapHas(Suffixes(entries), HASH_SIZE, i);
    }
    BlobReadsBack(blob, entries);
    ValueDigestsAre(sha, entries);
    ByteHashIs(sha, ValueDigests(sha, entries), ValueSlots(entries), 8, 0);
  }

  /** Children in slot order, each slot within the group. */
  predicate CanonicalChildren(gd: nat, children: seq<GroupChild>) {
    1 <= gd <= 8 && AscendingNats(ChildSlots(children)) && forall i :: 0 <= i < |children| ==>
        children[i].slot < Pow2(gd)
  }

  lemma {:induction false} GroupFieldsAre(sha: Bytes -> Bytes, gd: nat, children: seq<GroupChild>)
    requires IsHash(sha) && CanonicalChildren(gd, children)
    ensures DigestsOf(sha, GroupFields(Blob(sha, GroupNode(gd, children))), ChildMap(children))
    ensures |Blob(sha, GroupNode(gd, children))| == 2 + BitmapSizeForDepth(gd) + HASH_SIZE * |children|
  {
    hide Bitmap, ReadChildren, HashFields, BitSet, AscendingNats, Groups.Pow2, CountBelow, RawMap, DigestWith,
      ChildMap;
    var blob, n, slots := Blob(sha, GroupNode(gd, children)), BitmapSizeForDepth(gd), ChildSlots(children);
    DigestsAreDigests(sha);
    FieldAt(children, DigestWith(sha), 0);
    assert blob[1] == gd && blob[2..2 + n] == Bitmap(slots, n) &&
        blob[2 + n..] == HashFields(children, DigestWith(sha));
    forall i: nat | i < 8 * n ensures BitSet(blob[2..2 + n], i) <==> i in slots { BitmapHas(slots, n, i); }
    ReadBackChildren(blob[2..2 + n], children, DigestWith(sha), Pow2(gd));
    AllBelow(slots, Pow2(gd));
    var raw := RawChildren(children, DigestWith(sha));
    assert raw[..|raw|] == raw;
    RawMapIs(sha, children);
  }

  /** No group node has the length of an ungrouped internal node. */
  lemma {:induction false} GroupLength(gd: nat, k: nat)
    requires 1 <= gd <= 8
    ensures 2 + BitmapSizeForDepth(gd) + HASH_SIZE * k != 65
  {
    assert Pow2(1) == 2 && Pow2(2) == 4 && Pow2(3) == 8 && Pow2(4) == 16;
    assert Pow2(5) == 32 && Pow2(6) == 64 && Pow2(7) == 128 && Pow2(8) == 256;
  }

  lemma {:induction false} GroupBlobHash(sha: Bytes -> Bytes, gd: nat, children: seq<GroupChild>)
    requires IsHash(sha) && CanonicalChildren(gd, children)
    ensures BlobHash(sha, Blob(sha, GroupNode(gd, children))) == Digest(sha, NodeHash(GroupNode(gd, children)))
  {
    hide Bitmap, HashFields, ByteHash, Groups.ReaderHash, GroupFields, ChildMap, CanonicalChildren, Groups.Pow2,
      BitmapSizeForDepth;
    GroupFieldsAre(sha, gd, children);
    GroupDepthIs(gd, children);
    GroupLength(gd, |children|);
    var blob := Blob(sha, GroupNode(gd, children));
    assert blob[0] == 2 && blob[1] == gd;
    ByteHashIs(sha, GroupFields(blob), ChildMap(children), gd, 0);
  }

  lemma {:induction false} GroupDepthIs(gd: nat, children: seq<GroupChild>)
    requires CanonicalChildren(gd, children)
    ensures 1 <= gd <= 8
  {
  }

  lemma {:induction false} InternalBlobHash(sha: Bytes -> Bytes, l: Hash, r: Hash)
    requires IsHash(sha)
    ensures BlobHash(sha, Blob(sha, InternalNode(l, r))) == Digest(sha, Pair(l, r))
    ensures Blob(sha, InternalNode(l, r))[1..33] == Digest(sha, l)
    ensures Blob(sha, InternalNode(l, r))[33..] == Digest(sha, r)
  {
    DigestFacts(sha, l);
    DigestFacts(sha, r);
    InternalBytes(sha, Digest(sha, l), Digest(sha, r));
    assert Digest(sha, Pair(l, r)) == sha(Digest(sha, l) + Digest(sha, r));
    hide Digest, BlobHash;
  }

  lemma {:induction false} InternalBytes(sha: Bytes -> Bytes, a: Bytes, b: Bytes)
    requires |a| == |b| == HASH_SIZE
    ensures var blob := [2] + a + b;
            blob[1..33] == a && blob[33..] == b && BlobHash(sha, blob) == sha(a + b)
  {
    hide ByteHash, GroupFields, ReadEntries, ValueDigests;
    var blob := [2] + a + b;
    assert blob[1..] == a + b && blob[1..33] == a && blob[33..] == b;
  }

  // ----- the whole store

  predicate CanonicalItems(s: seq<Item>) {
    forall i :: 0 <= i < |s| ==> CanonicalEntries(s[i].entries)
  }

  /** The hash recomputed from the bytes stored at p is the tree's hash of p. */
  lemma {:induction false} StoredBlobHash(sha: Bytes -> Bytes, store: Store, s: seq<Item>, p: Path, gd: nat)
    requires IsHash(sha) && FinalStore(store, s, gd) && Ascending(s) && Fits(s, gd) && WellHashed(s)
    requires CanonicalItems(s) && gd <= 8 && p in store
    ensures BlobHash(sha, Blob(sha, store[p])) == Digest(sha, Node(s, p, gd))
    ensures NodeHash(store[p]) == Node(s, p, gd)
    ensures store[p].StemNode? ==> forall row :: IsValueRow(sha, store[p].entries, row) ==>
        BlobHash(sha, Blob(sha, store[p])) == sha(BytesOfStem(store[p].stem) + [0] + MerkleRoot(sha, row))
    ensures store[p].GroupNode? ==> store[p].groupDepth == gd && CanonicalChildren(gd, store[p].children)
  {
    hide TreeSpec.Under, TreeSpec.Node, TreeSpec.Ascending, BuilderSteps.Fits, WellHashed, BlobHash, Blob, Digest,
      BuilderSpec.ChildList, Groups.FullSlots, AscendingNats, Groups.Pow2, CanonicalEntries,
      IsValueRow, MerkleRoot, BytesOfStem, StemHash.IsStemHash, StemHash.StemNodeHash;
    assert Stored(s, p, gd) && store[p] == NodeAt(s, p, gd);
    RecomputedHash(s, p, gd);
    match store[p]
    case StemNode(stem, entries) =>
      UnderSelects(s, p);
      assert Under(s, p)[0] in s;
      StemBlobHash(sha, stem, entries);
      StemNodeHashIs(stem, entries);
      forall row | IsValueRow(sha, entries, row)
        ensures Digest(sha, StemNodeHash(stem, entries)) == sha(BytesOfStem(stem) + [0] + MerkleRoot(sha, row))
      {
        StemDigest(sha, StemNodeHash(stem, entries), stem, entries, row);
      }
    case InternalNode(l, r) => InternalBlobHash(sha, l, r);
    case GroupNode(g, children) =>
      ChildListAscends(FullSlots(s, p, gd), Pow2(gd));
      GroupBlobHash(sha, g, children);
  }

  /** The bytes a serialized group holds for slot t. */
  function SlotField(blob: Bytes, t: nat): Bytes {
    FieldOf(GroupFields(blob), t)
  }

  function FieldOf(m: map<nat, Bytes>, t: nat): Bytes {
    if t in m then m[t] else ZERO_HASH
  }

  lemma {:induction false} LeafIsMapped(children: seq<GroupChild>, t: nat)
    ensures LeafAt(children, t) == if t in ChildMap(children) then ChildMap(children)[t] else Zero
    decreases |children|
  {
    if children != [] { LeafIsMapped(children[..|children| - 1], t); }
  }

  /** Every slot of a stored group holds the bytes that a reader recomputes from the blob stored at the child
  path, and no bytes where there is no child. */
  lemma {:induction false} SlotMatchesBlob(sha: Bytes -> Bytes, store: Store, s: seq<Item>, x: Stem, d: nat, gd: nat)
    requires IsHash(sha) && FinalStore(store, s, gd) && Ascending(s) && Fits(s, gd) && WellHashed(s)
    requires CanonicalItems(s) && 1 <= gd <= 8 && d <= MAX_DEPTH && x[..d] in store && store[x[..d]].GroupNode?
    ensures d + gd <= MAX_DEPTH
    ensures SlotField(Blob(sha, store[x[..d]]), SlotAt(x, d, gd)) ==
            if x[..d + gd] in store then BlobHash(sha, Blob(sha, store[x[..d + gd]])) else ZERO_HASH
  {
    hide TreeSpec.Node, TreeSpec.Ascending, BuilderSteps.Fits, WellHashed, BlobHash, Blob, LeafAt, Groups.SlotAt,
      NodeHash, BuilderSteps.FinalStore, CanonicalItems, GroupFields, ChildMap, CanonicalChildren;
    SlotMatchesChild(store, s, x, d, gd);
    StoredBlobHash(sha, store, s, x[..d], gd);
    var children, t := store[x[..d]].children, SlotAt(x, d, gd);
    assert store[x[..d]] == GroupNode(gd, children);
    GroupFieldsAre(sha, gd, children);
    LeafIsMapped(children, t);
    if x[..d + gd] in store { StoredBlobHash(sha, store, s, x[..d + gd], gd); }
  }

  /** A reader that recomputes the root from the bytes stored at the empty path gets the root returned. */
  lemma {:induction false} RootFromBytes(sha: Bytes -> Bytes, store: Store, s: seq<Item>, gd: nat)
    requires IsHash(sha) && FinalStore(store, s, gd) && Ascending(s) && Fits(s, gd) && WellHashed(s)
    requires CanonicalItems(s) && gd <= 8 && s != []
    ensures [] in store && BlobHash(sha, Blob(sha, store[[]])) == Digest(sha, Root(s, gd))
  {
    hide TreeSpec.Node, TreeSpec.Ascending, BuilderSteps.Fits, WellHashed, BlobHash, Blob, CanonicalItems, Digest;
    UnderKeeps(s, [], 0);
    hide TreeSpec.Under;
    assert Stored(s, [], gd);
    StoredBlobHash(sha, store, s, [], gd);
  }

  // ----- sorted keys

  /** Strictly ascending keys: by stem, then by suffix; values of 32 bytes. */
  predicate SortedKeys(entries: seq<TrieEntry>) {
    && (forall i, j :: 0 <= i < j < |entries| ==>
          || Before(entries[i].stem, entries[j].stem)
          || (entries[i].stem == entries[j].stem && entries[i].entry.suffix < entries[j].entry.suffix))
    && forall i :: 0 <= i < |entries| ==> |entries[i].entry.value| == HASH_SIZE
  }

  lemma {:induction false} SortedKeysOrderStems(entries: seq<TrieEntry>)
    requires SortedKeys(entries)
    ensures OrderedStems(entries)
  {
    hide Stems.Before;
  }

  /** Pieces of a list with sorted keys have ascending suffixes. */
  lemma {:induction false} PiecesAreCanonical(work: seq<StemWork>, entries: seq<TrieEntry>, i: nat)
    requires IsGrouping(work, entries) && SortedKeys(entries) && i < |work|
    ensures CanonicalEntries(work[i].entries)
    decreases |work|
  {
    hide Stems.Before, SortedKeys, CanonicalEntries, Flatten;
    var n := |work| - 1;
    FlattenLast(work);
    var init, l := work[..n], work[n];
    var m := |Flatten(init)|;
    if i < n {
      SortedPrefix(entries, m);
      PiecesAreCanonical(init, entries[..m], i);
    } else {
      LastIsCanonical(entries, m, l);
    }
  }

  lemma {:induction false} SortedPrefix(entries: seq<TrieEntry>, m: nat)
    requires SortedKeys(entries) && m <= |entries|
    ensures SortedKeys(entries[..m])
  {
    hide Stems.Before;
  }

  lemma {:induction false} LastIsCanonical(entries: seq<TrieEntry>, m: nat, l: StemWork)
    requires SortedKeys(entries) && m + |l.entries| == |entries|
    requires forall k :: 0 <= k < |l.entries| ==> entries[m + k] == TrieEntry(l.stem, l.entries[k])
    ensures CanonicalEntries(l.entries)
  {
    hide Stems.CommonPrefixLen;
    forall a, b | 0 <= a < b < |l.entries| ensures l.entries[a].suffix < l.entries[b].suffix {
      assert entries[m + a] == TrieEntry(l.stem, l.entries[a]) && entries[m + b] == TrieEntry(l.stem, l.entries[b]);
      NotBeforeItself(l.stem);
    }
    forall a | 0 <= a < |l.entries| ensures |l.entries[a].value| == HASH_SIZE {
      assert entries[m + a] == TrieEntry(l.stem, l.entries[a]);
    }
  }

  lemma {:induction false} NotBeforeItself(x: Stem)
    ensures !Before(x, x)
  {
  }

  /** From sorted keys to bytes: the pieces of the input make canonical items, so the two results above hold for
  every store the builder writes. */
  lemma {:induction false} KeysAreCanonical(work: seq<StemWork>, entries: seq<TrieEntry>)
    requires IsGrouping(work, entries) && SortedKeys(entries)
    ensures CanonicalItems(Hashed(work)) && WellHashed(Hashed(work))
  {
    hide IsGrouping, SortedKeys, CanonicalEntries, StemHash.StemNodeHash;
    forall i | 0 <= i < |work| ensures CanonicalEntries(work[i].entries) { PiecesAreCanonical(work, entries, i); }
  }
}
