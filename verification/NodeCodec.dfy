/** Byte formats of trie nodes: a bitmap of present slots, most significant bit first, followed by the
present items in slot order. */
module NodeCodec {
  import opened Stems
  import opened TreeSpec
  import opened Groups
  import opened BuilderSpec
  import opened StemHash

  const STEM_SIZE: nat := 31
  const HASH_SIZE: nat := 32
  const NODE_TYPE_STEM: Byte := 1
  const NODE_TYPE_INTERNAL: Byte := 2

  // ----- bitmaps

  /** Bit k of a byte, counted from the most significant one. */
  predicate BitOf(b: Byte, k: nat)
    requires k < 8
  {
    ToBits(b, 8)[k]
  }

  lemma {:induction false} BitOfIs(b: Byte, k: nat)
    requires k < 8
    ensures BitOf(b, k) <==> b / Pow2(7 - k) % 2 == 1
  {
    ToBitsAt(b, 8, 7 - k);
  }

  /** A byte with bit k set. */
  function WithBit(b: Byte, k: nat): Byte
    requires k < 8
  {
    ToBitsSlotOf(ToBits(b, 8)[k := true]);
    assert Pow2(8) == 256;
    SlotOf(ToBits(b, 8)[k := true])
  }

  lemma {:induction false} WithBitSets(b: Byte, k: nat, j: nat)
    requires k < 8 && j < 8
    ensures BitOf(WithBit(b, k), j) == (j == k || BitOf(b, j))
  {
    ToBitsSlotOf(ToBits(b, 8)[k := true]);
  }

  lemma {:induction false} ZeroByte(j: nat)
    requires j < 8
    ensures !BitOf(0, j)
  {
    ZeroBits(8);
  }

  lemma {:induction false} ZeroBits(k: nat)
    ensures forall j :: 0 <= j < k ==> !ToBits(0, k)[j]
  {
    if k > 0 { ZeroBits(k - 1); }
  }

  predicate BitSet(bitmap: seq<Byte>, i: nat)
    requires i < 8 * |bitmap|
  {
    BitOf(bitmap[i / 8], i % 8)
  }

  lemma {:induction false} BitSetIs(bitmap: seq<Byte>, i: nat)
    requires i < 8 * |bitmap|
    ensures BitSet(bitmap, i) <==> bitmap[i / 8] / Pow2(7 - i % 8) % 2 == 1
  {
    BitOfIs(bitmap[i / 8], i % 8);
  }

  /** The bits of a bitmap, most significant first in each byte, are those of exactly the given slots. */
  ghost predicate Marks(bitmap: seq<Byte>, slots: seq<nat>) {
    forall i: nat :: i < 8 * |bitmap| ==> (bitmap[i / 8] / Pow2(7 - i % 8) % 2 == 1 <==> i in slots)
  }

  lemma {:induction false} BitsMark(bitmap: seq<Byte>, slots: seq<nat>)
    requires forall i: nat :: i < 8 * |bitmap| ==> (BitSet(bitmap, i) <==> i in slots)
    ensures Marks(bitmap, slots)
  {
    forall i: nat | i < 8 * |bitmap|
      ensures bitmap[i / 8] / Pow2(7 - i % 8) % 2 == 1 <==> i in slots
    {
      BitSetIs(bitmap, i);
      hide BitSet, Groups.Pow2;
    }
  }

  /** A bitmap of `size` bytes with exactly the given slots set. */
  method BuildBitmap(slots: seq<nat>, size: nat) returns (bitmap: array<Byte>)
    requires forall k :: 0 <= k < |slots| ==> slots[k] < 8 * size
    ensures fresh(bitmap) && bitmap.Length == size && Marks(bitmap[..], slots)
    ensures forall i: nat :: i < 8 * size ==> (BitSet(bitmap[..], i) <==> i in slots)
  {
    hide BitOf, WithBit, Marks;
    bitmap := new Byte[size](_ => 0);
    forall i: nat | i < 8 * size ensures !BitSet(bitmap[..], i) { ZeroByte(i % 8); }
    for k := 0 to |slots|
      invariant forall i: nat :: i < 8 * size ==> (BitSet(bitmap[..], i) <==> i in slots[..k])
    {
      ghost var before := bitmap[..];
      var slot := slots[k];
      bitmap[slot / 8] := WithBit(bitmap[slot / 8], slot % 8);
      forall i: nat | i < 8 * size ensures BitSet(bitmap[..], i) <==> i in slots[..k + 1] {
        assert slots[..k + 1] == slots[..k] + [slot];
        if i / 8 == slot / 8 { WithBitSets(before[slot / 8], slot % 8, i % 8); }
      }
    }
    assert slots[..|slots|] == slots;
    BitsMark(bitmap[..], slots);
  }

  predicate AscendingNats(s: seq<nat>) {
    forall i, j :: 0 <= i < j < |s| ==> s[i] < s[j]
  }

  /** Number of elements of an ascending list below n. */
  function CountBelow(s: seq<nat>, n: nat): (c: nat)
    ensures c <= |s|
  {
    if s == [] then 0 else if s[|s| - 1] < n then |s| else CountBelow(s[..|s| - 1], n)
  }

  lemma {:induction false} CountBelowFacts(s: seq<nat>, n: nat)
    requires AscendingNats(s)
    ensures forall i :: 0 <= i < CountBelow(s, n) ==> s[i] < n
    ensures forall i :: CountBelow(s, n) <= i < |s| ==> n <= s[i]
  {
    if s != [] && s[|s| - 1] >= n { CountBelowFacts(s[..|s| - 1], n); }
  }

  /** Advancing n by one passes exactly the element n, if present. */
  lemma {:induction false} CountBelowStep(s: seq<nat>, n: nat)
    requires AscendingNats(s)
    ensures n in s <==> CountBelow(s, n) < |s| && s[CountBelow(s, n)] == n
    ensures CountBelow(s, n + 1) == CountBelow(s, n) + if n in s then 1 else 0
  {
    hide CountBelow;
    CountBelowFacts(s, n);
    CountBelowFacts(s, n + 1);
    var c, c' := CountBelow(s, n), CountBelow(s, n + 1);
    assert c < |s| ==> n <= s[c];
    assert c' < |s| ==> n + 1 <= s[c'];
    assert c' > 0 ==> s[c' - 1] < n + 1;
  }

  // ----- stem nodes

  function Suffixes(entries: seq<Entry>): (r: seq<nat>)
    ensures |r| == |entries| && forall i :: 0 <= i < |r| ==> r[i] == entries[i].suffix
  {
    seq(|entries|, i requires 0 <= i < |entries| => entries[i].suffix)
  }

  /** Values laid end to end. */
  function Packed(entries: seq<Entry>): seq<Byte> {
    if entries == [] then [] else Packed(entries[..|entries| - 1]) + entries[|entries| - 1].value
  }

  predicate WholeValues(entries: seq<Entry>) {
    forall i :: 0 <= i < |entries| ==> |entries[i].value| == HASH_SIZE
  }

  lemma {:induction false} PackedSlice(entries: seq<Entry>, k: nat)
    requires WholeValues(entries) && k <= |entries|
    ensures |Packed(entries)| == HASH_SIZE * |entries|
    ensures k < |entries| ==> Packed(entries)[HASH_SIZE * k..HASH_SIZE * (k + 1)] == entries[k].value
    decreases |entries|
  {
    if entries != [] {
      var init := entries[..|entries| - 1];
      PackedSlice(init, if k < |init| then k else |init|);
      assert Packed(entries) == Packed(init) + entries[|entries| - 1].value;
    }
  }

  /** The stem of 31 bytes as a path of bits. */
  function StemOfBytes(b: seq<Byte>): Stem
    requires |b| == STEM_SIZE
  {
    seq(MAX_DEPTH, d requires 0 <= d < MAX_DEPTH => BitOf(b[d / 8], d % 8))
  }

  /** Type, stem, a bitmap of exactly the present suffixes, and the values in order. */
  method SerializeStemNode(stem: seq<Byte>, entries: seq<Entry>) returns (blob: seq<Byte>)
    requires |stem| == STEM_SIZE
    ensures |blob| >= 64 && blob[0] == 1 && blob[1..32] == stem && Marks(blob[32..64], Suffixes(entries))
    ensures forall i: nat :: i < 256 ==> (BitSet(blob[32..64], i) <==> i in Suffixes(entries))
    ensures blob[64..] == Packed(entries)
  {
    hide BitSet, Marks;
    var bits := BuildBitmap(Suffixes(entries), HASH_SIZE);
    ghost var bitmap := bits[..];
    blob := [NODE_TYPE_STEM] + stem + bits[..];
    for k := 0 to |entries|
      invariant blob == [NODE_TYPE_STEM] + stem + bitmap + Packed(entries[..k])
    {
      assert entries[..k + 1][..k] == entries[..k];
      blob := blob + entries[k].value;
    }
    assert entries[..|entries|] == entries;
    assert blob[1..32] == stem && blob[32..64] == bitmap && blob[64..] == Packed(entries);
  }

  /** The entries a reader finds for the slots below i: each set bit takes the next 32 bytes, unless
  the blob ends before. */
  function ReadEntries(bitmap: seq<Byte>, values: seq<Byte>, i: nat): seq<Entry>
    requires i <= 256 && |bitmap| == HASH_SIZE
  {
    if i == 0 then [] else
      var prev := ReadEntries(bitmap, values, i - 1);
      if BitSet(bitmap, i - 1) && HASH_SIZE * (|prev| + 1) <= |values|
      then prev + [Entry(i - 1, values[HASH_SIZE * |prev|..HASH_SIZE * (|prev| + 1)])]
      else prev
  }

  /** The set bits below slot i. */
  ghost function SetBits(bitmap: seq<Byte>, i: nat): set<nat>
    requires i <= 8 * |bitmap|
  {
    set t: nat | t < i && BitSet(bitmap, t)
  }

  lemma {:induction false} ReadCount(bitmap: seq<Byte>, values: seq<Byte>, i: nat)
    requires i <= 256 && |bitmap| == HASH_SIZE
    ensures var c := |SetBits(bitmap, i)|;
            |ReadEntries(bitmap, values, i)| == if HASH_SIZE * c <= |values| then c else |values| / HASH_SIZE
    decreases i
  {
    hide BitSet;
    if i == 0 {
      assert SetBits(bitmap, i) == {};
    } else {
      ReadCount(bitmap, values, i - 1);
      var s := SetBits(bitmap, i - 1);
      assert SetBits(bitmap, i) == if BitSet(bitmap, i - 1) then s + {i - 1} else s;
    }
  }

  /** A reader finds the value at rank c of the value bytes for the slot whose set bit has c set bits before
  it, as long as the bytes last, and nothing else. */
  lemma {:induction false} ReadEntriesAre(bitmap: seq<Byte>, values: seq<Byte>, i: nat, e: Entry)
    requires i <= 256 && |bitmap| == HASH_SIZE
    ensures e in ReadEntries(bitmap, values, i) <==> e.suffix < i && Finds(bitmap, values, e)
    decreases i
  {
    hide BitSet, SetBits;
    if i > 0 {
      ReadEntriesAre(bitmap, values, i - 1, e);
      ReadCount(bitmap, values, i - 1);
      ReadStep(bitmap, values, i - 1);
      hide ReadEntries;
    }
  }

  /** e is the entry that the bitmap and the value bytes hold for its suffix. */
  ghost predicate Finds(bitmap: seq<Byte>, values: seq<Byte>, e: Entry)
    requires |bitmap| == HASH_SIZE
  {
    var c := |SetBits(bitmap, e.suffix)|;
    BitSet(bitmap, e.suffix) && 32 * (c + 1) <= |values| && e.value == values[32 * c..32 * (c + 1)]
  }

  /** Hash of a serialized stem node, for any bytes. A blob too short for its header hashes to zero. */
  method HashStemBlob(blob: seq<Byte>) returns (h: Hash)
    ensures |blob| < 64 ==> h == Zero
    ensures |blob| >= 64 ==> IsStemHash(h, StemOfBytes(blob[1..32]), ReadEntries(blob[32..64], blob[64..], 256))
    ensures |blob| >= 64 ==> h == StemNodeHash(StemOfBytes(blob[1..32]), ReadEntries(blob[32..64], blob[64..], 256))
  {
    hide StemHash.LevelIs, ReadEntries, StemOfBytes, StemHash.IsStemHash;
    if |blob| < 1 + STEM_SIZE + HASH_SIZE { return Zero; }
    var data := ReadSlots(blob);
    h := ReduceStem(StemOfBytes(blob[1..32]), data, ValueSlots(ReadEntries(blob[32..64], blob[64..], 256)));
    StemNodeHashIs(StemOfBytes(blob[1..32]), ReadEntries(blob[32..64], blob[64..], 256));
  }

  method ReadSlots(blob: seq<Byte>) returns (data: array<Hash>)
    requires |blob| >= 64
    ensures fresh(data) && data.Length == STEM_NODE_WIDTH
    ensures LevelIs(data[..], ValueSlots(ReadEntries(blob[32..64], blob[64..], 256)), 0, STEM_NODE_WIDTH)
  {
    hide BitOf, BitSet, StemHash.LevelIs, ReadEntries, StemHash.ValueSlots;
    data := new Hash[STEM_NODE_WIDTH](_ => Zero);
    var valueOffset := 1 + STEM_SIZE + HASH_SIZE;
    ghost var bitmap, values := blob[32..64], blob[64..];
    NoSlotsRead(data[..], bitmap, values);
    for i := 0 to STEM_NODE_WIDTH
      invariant valueOffset == 64 + HASH_SIZE * |ReadEntries(bitmap, values, i)|
      invariant LevelIs(data[..], ValueSlots(ReadEntries(bitmap, values, i)), 0, STEM_NODE_WIDTH)
    {
      ghost var prev := ReadEntries(bitmap, values, i);
      ReadStep(bitmap, values, i);
      BitAt(blob, i);
      if BitOf(blob[32 + i / 8], i % 8) && valueOffset + HASH_SIZE <= |blob| {
        var v := blob[valueOffset..valueOffset + HASH_SIZE];
        ValueAt(blob, HASH_SIZE * |prev|);
        ValueSlotsSnoc(prev, Entry(i, v));
        PutLeaf(data[..], ValueSlots(prev), i, Leaf(v));
        ghost var next := data[..][i := Leaf(v)];
        data[i] := Leaf(v);
        assert data[..] == next;
        valueOffset := valueOffset + HASH_SIZE;
      }
    }
  }

  lemma {:induction false} BitAt(blob: seq<Byte>, i: nat)
    requires |blob| >= 64 && i < 256
    ensures BitSet(blob[32..64], i) == BitOf(blob[32 + i / 8], i % 8)
  {
    hide BitOf;
    assert blob[32..64][i / 8] == blob[32 + i / 8];
  }

  lemma {:induction false} ValueAt(blob: seq<Byte>, off: nat)
    requires 64 + off + HASH_SIZE <= |blob|
    ensures blob[64..][off..off + HASH_SIZE] == blob[64 + off..64 + off + HASH_SIZE]
  {
  }

  lemma {:induction false} NoSlotsRead(data: seq<Hash>, bitmap: seq<Byte>, values: seq<Byte>)
    requires |data| == STEM_NODE_WIDTH && |bitmap| == HASH_SIZE && forall i :: 0 <= i < |data| ==> data[i] == Zero
    ensures ReadEntries(bitmap, values, 0) == []
    ensures LevelIs(data, ValueSlots(ReadEntries(bitmap, values, 0)), 0, STEM_NODE_WIDTH)
  {
  }

  lemma {:induction false} ReadStep(bitmap: seq<Byte>, values: seq<Byte>, i: nat)
    requires i < 256 && |bitmap| == HASH_SIZE
    ensures var prev := ReadEntries(bitmap, values, i);
      ReadEntries(bitmap, values, i + 1) ==
        if BitSet(bitmap, i) && HASH_SIZE * (|prev| + 1) <= |values|
        then prev + [Entry(i, values[HASH_SIZE * |prev|..HASH_SIZE * (|prev| + 1)])]
        else prev
  {
    hide BitSet;
  }

  /** Reading back a serialized stem node yields its entries. */
  lemma {:induction false} ReadBack(bitmap: seq<Byte>, entries: seq<Entry>, i: nat)
    requires AscendingNats(Suffixes(entries)) && WholeValues(entries) && i <= 256 && |bitmap| == HASH_SIZE
    requires forall k: nat :: k < 256 ==> (BitSet(bitmap, k) <==> k in Suffixes(entries))
    ensures ReadEntries(bitmap, Packed(entries), i) == entries[..CountBelow(Suffixes(entries), i)]
    decreases i
  {
    hide CountBelow, Packed, BitSet;
    var slots := Suffixes(entries);
    if i == 0 {
      NoneBelowZero(slots);
    } else {
      ReadBack(bitmap, entries, i - 1);
      CountBelowStep(slots, i - 1);
      var c := CountBelow(slots, i - 1);
      PackedSlice(entries, c);
    }
  }

  lemma {:induction false} NoneBelowZero(s: seq<nat>)
    ensures CountBelow(s, 0) == 0
  {
    if s != [] { NoneBelowZero(s[..|s| - 1]); }
  }

  lemma {:induction false} AllBelow(s: seq<nat>, n: nat)
    requires forall i :: 0 <= i < |s| ==> s[i] < n
    ensures CountBelow(s, n) == |s|
  {
  }

  /** A serialized node reads back to its entries. */
  lemma {:induction false} BlobReadsBack(blob: seq<Byte>, entries: seq<Entry>)
    requires AscendingNats(Suffixes(entries)) && WholeValues(entries)
    requires |blob| >= 64 && blob[64..] == Packed(entries)
    requires forall i: nat :: i < 256 ==> (BitSet(blob[32..64], i) <==> i in Suffixes(entries))
    ensures ReadEntries(blob[32..64], blob[64..], 256) == entries
  {
    hide CountBelow, Packed, BitSet, ReadEntries;
    ReadBack(blob[32..64], entries, 256);
    AllBelow(Suffixes(entries), 256);
  }

  /** The two ways of hashing a stem node, side by side. */
  method HashBothWays(stem: seq<Byte>, entries: seq<Entry>) returns (direct: Hash, viaBlob: Hash)
    requires |stem| == STEM_SIZE && AscendingNats(Suffixes(entries)) && WholeValues(entries)
    ensures direct == viaBlob && IsStemHash(direct, StemOfBytes(stem), entries)
  {
    hide Packed, BitSet, ReadEntries, StemHash.StemNodeHash, StemOfBytes, StemHash.IsStemHash, Marks;
    direct := ComputeStemNodeHash(StemOfBytes(stem), entries);
    var blob := SerializeStemNode(stem, entries);
    BlobReadsBack(blob, entries);
    viaBlob := HashStemBlob(blob);
  }

  // ----- group nodes

  /** Bytes of a bitmap with one bit per bottom-layer child. */
  function BitmapSizeForDepth(gd: nat): (n: nat)
    ensures Pow2(gd) <= 8 * n < Pow2(gd) + 8
  {
    (Pow2(gd) + 7) / 8
  }

  function ChildSlots(children: seq<GroupChild>): (r: seq<nat>)
    ensures |r| == |children| && forall i :: 0 <= i < |r| ==> r[i] == children[i].slot
  {
    seq(|children|, i requires 0 <= i < |children| => children[i].slot)
  }

  /** The 32 bytes of every hash. */
  ghost predicate IsDigest(digest: Hash -> seq<Byte>) { forall h :: |digest(h)| == HASH_SIZE }

  /** A child as a reader of the bytes sees it. */
  datatype RawChild = RawChild(slot: nat, digest: seq<Byte>)

  function RawChildren(children: seq<GroupChild>, digest: Hash -> seq<Byte>): (r: seq<RawChild>)
    ensures |r| == |children|
  {
    seq(|children|, i requires 0 <= i < |children| => RawChild(children[i].slot, digest(children[i].hash)))
  }

  /** The hashes laid end to end. */
  function HashFields(children: seq<GroupChild>, digest: Hash -> seq<Byte>): seq<Byte> {
    if children == [] then []
    else HashFields(children[..|children| - 1], digest) + digest(children[|children| - 1].hash)
  }

  lemma {:induction false} FieldAt(children: seq<GroupChild>, digest: Hash -> seq<Byte>, k: nat)
    requires IsDigest(digest) && k <= |children|
    ensures |HashFields(children, digest)| == HASH_SIZE * |children|
    ensures k < |children| ==>
              HashFields(children, digest)[HASH_SIZE * k..HASH_SIZE * (k + 1)] == digest(children[k].hash)
    decreases |children|
  {
    if children != [] {
      var init, last := children[..|children| - 1], digest(children[|children| - 1].hash);
      FieldAt(init, digest, if k < |init| then k else |init|);
      var a, b := HashFields(init, digest), HashFields(children, digest);
      assert b == a + last;
      assert |last| == HASH_SIZE;
      if k < |init| {
        assert init[k] == children[k];
        assert b[HASH_SIZE * k..HASH_SIZE * (k + 1)] == a[HASH_SIZE * k..HASH_SIZE * (k + 1)];
      } else if k == |init| {
        assert b[HASH_SIZE * k..HASH_SIZE * (k + 1)] == last;
      }
    }
  }

  /** Type, group depth, a bitmap of exactly the children's slots, and the hashes in order, 32 bytes each. */
  method SerializeGroupedInternalNode(groupDepth: nat, children: seq<GroupChild>, digest: Hash -> seq<Byte>)
    returns (blob: seq<Byte>)
    requires IsDigest(digest) && forall i :: 0 <= i < |children| ==> children[i].slot < Pow2(groupDepth)
    ensures var n := BitmapSizeForDepth(groupDepth);
      && |blob| == 2 + n + HASH_SIZE * |children|
      && blob[0] == 2 && blob[1] == groupDepth % 256 && Marks(blob[2..2 + n], ChildSlots(children))
      && (forall i: nat :: i < 8 * n ==> (BitSet(blob[2..2 + n], i) <==> i in ChildSlots(children)))
      && blob[2 + n..] == HashFields(children, digest)
  {
    hide BitSet, Groups.Pow2, Marks;
    var n := BitmapSizeForDepth(groupDepth);
    var bits := BuildBitmap(ChildSlots(children), n);
    var head := [NODE_TYPE_INTERNAL, groupDepth % 256] + bits[..];
    blob := head;
    for k := 0 to |children|
      invariant blob == head + HashFields(children[..k], digest)
    {
      assert children[..k + 1][..k] == children[..k];
      blob := blob + digest(children[k].hash);
    }
    assert children[..|children|] == children;
    FieldAt(children, digest, 0);
    assert blob[2..2 + n] == bits[..] && blob[2 + n..] == HashFields(children, digest);
  }

  /** The children a reader finds for the slots below i: each set bit takes the next 32 bytes. */
  function ReadChildren(bitmap: seq<Byte>, fields: seq<Byte>, i: nat): seq<RawChild>
    requires i <= 8 * |bitmap|
  {
    if i == 0 then [] else
      var prev := ReadChildren(bitmap, fields, i - 1);
      if BitSet(bitmap, i - 1) && HASH_SIZE * (|prev| + 1) <= |fields|
      then prev + [RawChild(i - 1, fields[HASH_SIZE * |prev|..HASH_SIZE * (|prev| + 1)])]
      else prev
  }

  /** Reading back a serialized group yields its children. */
  lemma {:induction false} ReadBackChildren(
    bitmap: seq<Byte>, children: seq<GroupChild>, digest: Hash -> seq<Byte>, i: nat)
    requires IsDigest(digest) && AscendingNats(ChildSlots(children)) && i <= 8 * |bitmap|
    requires forall k: nat :: k < 8 * |bitmap| ==> (BitSet(bitmap, k) <==> k in ChildSlots(children))
    ensures ReadChildren(bitmap, HashFields(children, digest), i)
         == RawChildren(children, digest)[..CountBelow(ChildSlots(children), i)]
    decreases i
  {
    hide CountBelow, BitSet, HashFields;
    var slots := ChildSlots(children);
    if i == 0 {
      NoneBelowZero(slots);
    } else {
      ReadBackChildren(bitmap, children, digest, i - 1);
      CountBelowStep(slots, i - 1);
      var c := CountBelow(slots, i - 1);
      FieldAt(children, digest, c);
      assert BitSet(bitmap, i - 1) <==> i - 1 in slots;
      if i - 1 in slots { RawSnoc(children, digest, c); }
    }
  }

  lemma {:induction false} RawSnoc(children: seq<GroupChild>, digest: Hash -> seq<Byte>, c: nat)
    requires c < |children|
    ensures var raw := RawChildren(children, digest);
            raw[..c + 1] == raw[..c] + [RawChild(children[c].slot, digest(children[c].hash))]
  {
  }

  /** Every bucket survives serialization: reading the written bytes yields its child list. */
  method GroupRoundTrip(groupDepth: nat, m: map<nat, Hash>, digest: Hash -> seq<Byte>) returns (blob: seq<Byte>)
    requires IsDigest(digest)
    ensures var n := BitmapSizeForDepth(groupDepth);
      && |blob| >= 2 + n
      && ReadChildren(blob[2..2 + n], blob[2 + n..], Pow2(groupDepth))
         == RawChildren(ChildList(m, Pow2(groupDepth)), digest)
  {
    hide CountBelow, BitSet, ReadChildren, BuilderSpec.ChildList, HashFields;
    var children := ChildList(m, Pow2(groupDepth));
    ChildListAscends(m, Pow2(groupDepth));
    blob := SerializeGroupedInternalNode(groupDepth, children, digest);
    var n := BitmapSizeForDepth(groupDepth);
    ReadBackChildren(blob[2..2 + n], children, digest, Pow2(groupDepth));
    AllBelow(ChildSlots(children), Pow2(groupDepth));
  }

  lemma {:induction false} ChildListAscends(m: map<nat, Hash>, n: nat)
    ensures AscendingNats(ChildSlots(ChildList(m, n)))
    ensures forall i :: 0 <= i < |ChildList(m, n)| ==> ChildList(m, n)[i].slot < n
  {
    if n > 0 {
      ChildListAscends(m, n - 1);
      var a, b := ChildSlots(ChildList(m, n - 1)), ChildSlots(ChildList(m, n));
      assert forall i :: 0 <= i < |a| ==> b[i] == a[i];
    }
  }
}
