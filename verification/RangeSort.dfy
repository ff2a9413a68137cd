/** Streaming a giant contract's slots in key-hash order: one byte per slot assigns it to a range of the
hash space, and the ranges are sorted one after the other. Hashes are 256-bit numbers. */
module RangeSort {
  import opened Stems
  import opened Arithmetic

  /** A slot number with the hash of its key. */
  datatype HashedSlot = HashedSlot(hash: nat, slot: nat)

  /** hashes[j] is the hash of the key of slot j. */
  predicate AreHashes(hashes: seq<nat>) {
    && |hashes| < TWO64
    && forall j :: 0 <= j < |hashes| ==> hashes[j] < TWO256
  }

  predicate Ordered(s: seq<HashedSlot>) {
    forall a, b :: 0 <= a <= b < |s| ==> s[a].hash <= s[b].hash
  }

  function AllSlots(hashes: seq<nat>, n: nat): (s: seq<HashedSlot>)
    requires n <= |hashes|
  {
    seq(n, j requires 0 <= j < n => HashedSlot(hashes[j], j))
  }

  // ----- the range of a hash

  /** High word of the product of the leading 64 bits and the number of ranges. */
  function RangeOf(hash: nat, ranges: nat): nat {
    hash / TWO192 * ranges / TWO64
  }

  lemma {:induction false} RangeFits(hash: nat, ranges: nat)
    requires hash < TWO256 && ranges > 0
    ensures RangeOf(hash, ranges) < ranges
  {
    DivLess(hash, TWO192, TWO64);
    var p := hash / TWO192;
    assert p + 1 <= TWO64;
    MulMonotone(p + 1, TWO64, ranges);
    assert (p + 1) * ranges == p * ranges + ranges;
    DivLess(p * ranges, TWO64, ranges);
  }

  lemma {:induction false} RangeMonotone(a: nat, b: nat, ranges: nat)
    requires a <= b
    ensures RangeOf(a, ranges) <= RangeOf(b, ranges)
  {
    DivMonotone(a, b, TWO192);
    MulMonotone(a / TWO192, b / TWO192, ranges);
    DivMonotone(a / TWO192 * ranges, b / TWO192 * ranges, TWO64);
  }

  /** Range r of a hash holds the hashes whose leading 64 bits, as a fraction of 2^64, lie between r and r + 1
  parts of `ranges`. */
  predicate InRange(hash: nat, ranges: nat, r: nat) {
    r * TWO64 <= hash / TWO192 * ranges < (r + 1) * TWO64
  }

  lemma {:induction false} RangeIs(hash: nat, ranges: nat, r: nat)
    ensures InRange(hash, ranges, r) <==> r == RangeOf(hash, ranges)
  {
    var p := hash / TWO192 * ranges;
    DivLess(p, TWO64, r);
    DivLess(p, TWO64, r + 1);
  }

  predicate Assigned(hashes: seq<nat>, ranges: nat, bucket: seq<Byte>) {
    && |bucket| == |hashes|
    && forall j :: 0 <= j < |hashes| ==> bucket[j] == RangeOf(hashes[j], ranges)
  }

  /** Each chunk of slots is filled by its own worker; the chunks are disjoint and cover the array. */
  method AssignRanges(hashes: seq<nat>, ranges: nat, workers: nat) returns (bucket: array<Byte>)
    requires AreHashes(hashes) && 1 <= ranges <= 256 && workers > 0
    ensures Assigned(hashes, ranges, bucket[..])
    ensures forall j :: 0 <= j < |hashes| ==> InRange(hashes[j], ranges, bucket[j])
  {
    hide RangeOf, AreHashes, InRange;
    var n := |hashes|;
    bucket := new Byte[n];
    var chunk := n / workers + 1;
    var lo := 0;
    while lo < n
      invariant forall j :: 0 <= j < lo && j < n ==> bucket[j] == RangeOf(hashes[j], ranges)
      decreases n - lo
    {
      AssignChunk(hashes, ranges, bucket, lo, if lo + chunk < n then lo + chunk else n);
      lo := lo + chunk;
    }
    forall j | 0 <= j < |hashes| ensures InRange(hashes[j], ranges, bucket[j]) {
      RangeIs(hashes[j], ranges, bucket[j]);
    }
  }

  method AssignChunk(hashes: seq<nat>, ranges: nat, bucket: array<Byte>, lo: nat, hi: nat)
    requires AreHashes(hashes) && 1 <= ranges <= 256
    requires lo <= hi <= |hashes| == bucket.Length
    modifies bucket
    ensures forall j :: lo <= j < hi ==> bucket[j] == RangeOf(hashes[j], ranges)
    ensures forall j :: 0 <= j < lo || hi <= j < |hashes| ==> bucket[j] == old(bucket[j])
  {
    hide RangeOf;
    for j := lo to hi
      invariant forall i :: lo <= i < j ==> bucket[i] == RangeOf(hashes[i], ranges)
      invariant forall i :: 0 <= i < lo || j <= i < |hashes| ==> bucket[i] == old(bucket[i])
    {
      RangeFits(hashes[j], ranges);
      bucket[j] := RangeOf(hashes[j], ranges) % 256;
    }
  }

  // ----- sorting one range

  /** The first n slots that are in range r, in slot order. */
  function Members(hashes: seq<nat>, bucket: seq<Byte>, r: nat, n: nat): seq<HashedSlot>
    requires n <= |hashes| == |bucket|
    decreases n
  {
    if n == 0 then []
    else
      var rest := Members(hashes, bucket, r, n - 1);
      if bucket[n - 1] == r then rest + [HashedSlot(hashes[n - 1], n - 1)] else rest
  }

  /** Index of the first b at or after off, or the length. */
  method IndexByte(s: seq<Byte>, off: nat, b: Byte) returns (k: nat)
    requires off <= |s|
    ensures off <= k <= |s| && (k < |s| ==> s[k] == b)
    ensures forall j :: off <= j < k ==> s[j] != b
  {
    k := off;
    while k < |s| && s[k] != b
      invariant off <= k <= |s|
      invariant forall j :: off <= j < k ==> s[j] != b
    {
      k := k + 1;
    }
  }

  lemma {:induction false} MembersSkip(hashes: seq<nat>, bucket: seq<Byte>, r: nat, a: nat, b: nat)
    requires a <= b <= |hashes| == |bucket|
    requires forall j :: a <= j < b ==> bucket[j] != r
    ensures Members(hashes, bucket, r, b) == Members(hashes, bucket, r, a)
    decreases b
  {
    if a < b { MembersSkip(hashes, bucket, r, a, b - 1); }
  }

  method CollectRange(hashes: seq<nat>, bucket: seq<Byte>, r: Byte) returns (out: seq<HashedSlot>)
    requires |hashes| == |bucket|
    ensures out == Members(hashes, bucket, r, |hashes|)
  {
    out := [];
    var off := 0;
    var k := IndexByte(bucket, 0, r);
    MembersSkip(hashes, bucket, r, 0, k);
    while k < |bucket|
      invariant k <= |bucket| && (k < |bucket| ==> bucket[k] == r)
      invariant out == Members(hashes, bucket, r, k)
    {
      out := out + [HashedSlot(hashes[k], k)];
      off := k + 1;
      k := IndexByte(bucket, off, r);
      MembersSkip(hashes, bucket, r, off, k);
    }
  }

  function Insert(s: seq<HashedSlot>, x: HashedSlot): (t: seq<HashedSlot>) {
    if s == [] || x.hash < s[0].hash then [x] + s else [s[0]] + Insert(s[1..], x)
  }

  lemma {:induction false} InsertContents(s: seq<HashedSlot>, x: HashedSlot)
    ensures multiset(Insert(s, x)) == multiset(s) + multiset{x}
  {
    if !(s == [] || x.hash < s[0].hash) {
      InsertContents(s[1..], x);
      assert s == [s[0]] + s[1..];
    } else {
      assert [x] + s == Insert(s, x);
    }
  }

  lemma {:induction false} InsertOrdered(s: seq<HashedSlot>, x: HashedSlot)
    requires Ordered(s)
    ensures Ordered(Insert(s, x))
  {
    if !(s == [] || x.hash < s[0].hash) {
      InsertOrdered(s[1..], x);
      InsertContents(s[1..], x);
      var t := Insert(s[1..], x);
      forall b | 0 <= b < |t| ensures s[0].hash <= t[b].hash {
        var y := t[b];
        assert y in multiset(t);
        if y != x { assert y in s[1..]; }
      }
      Prepended(s[0], t);
    } else {
      Prepended(x, s);
    }
  }

  lemma {:induction false} Prepended(x: HashedSlot, t: seq<HashedSlot>)
    requires Ordered(t) && forall b :: 0 <= b < |t| ==> x.hash <= t[b].hash
    ensures Ordered([x] + t)
  {
  }

  /** Sorting by hash; the order of equal hashes is not specified. */
  method SortByHash(s: seq<HashedSlot>) returns (t: seq<HashedSlot>)
    ensures Ordered(t) && multiset(t) == multiset(s)
  {
    t := [];
    for i := 0 to |s|
      invariant Ordered(t) && multiset(t) == multiset(s[..i])
    {
      InsertContents(t, s[i]);
      InsertOrdered(t, s[i]);
      t := Insert(t, s[i]);
      assert s[..i + 1] == s[..i] + [s[i]];
    }
    assert s[..|s|] == s;
  }

  /** The slots of one range, or all slots when there is only one range. */
  ghost predicate SortedRange(hashes: seq<nat>, bucket: seq<Byte>, r: nat, out: seq<HashedSlot>)
    requires |hashes| == |bucket|
  {
    Ordered(out) && multiset(out) == multiset(Members(hashes, bucket, r, |hashes|))
  }

  // ----- all ranges

  function Concat(parts: seq<seq<HashedSlot>>): seq<HashedSlot> {
    if parts == [] then [] else Concat(parts[..|parts| - 1]) + parts[|parts| - 1]
  }

  /** The first n slots whose range is below r. */
  ghost function UpTo(hashes: seq<nat>, bucket: seq<Byte>, r: nat, n: nat): multiset<HashedSlot>
    requires n <= |hashes| == |bucket|
    decreases r
  {
    if r == 0 then multiset{} else
      UpTo(hashes, bucket, r - 1, n) + multiset(Members(hashes, bucket, r - 1, n))
  }

  lemma {:induction false} UpToStep(hashes: seq<nat>, bucket: seq<Byte>, r: nat, n: nat)
    requires n < |hashes| == |bucket|
    ensures UpTo(hashes, bucket, r, n + 1) == UpTo(hashes, bucket, r, n) +
              if bucket[n] < r then multiset{HashedSlot(hashes[n], n)} else multiset{}
    decreases r
  {
    hide UpTo, Members;
    if r == 0 {
      UpToNothing(hashes, bucket, n);
      UpToNothing(hashes, bucket, n + 1);
    } else {
      UpToStep(hashes, bucket, r - 1, n);
      MembersStep(hashes, bucket, r - 1, n);
      UpToUnfold(hashes, bucket, r, n);
      UpToUnfold(hashes, bucket, r, n + 1);
      var x := multiset{HashedSlot(hashes[n], n)};
      AddBoth(UpTo(hashes, bucket, r - 1, n), multiset(Members(hashes, bucket, r - 1, n)),
        if bucket[n] < r - 1 then x else multiset{}, if bucket[n] == r - 1 then x else multiset{});
    }
  }

  lemma {:induction false} UpToNothing(hashes: seq<nat>, bucket: seq<Byte>, n: nat)
    requires n <= |hashes| == |bucket|
    ensures UpTo(hashes, bucket, 0, n) == multiset{}
  {
  }

  lemma {:induction false} UpToUnfold(hashes: seq<nat>, bucket: seq<Byte>, r: nat, n: nat)
    requires n <= |hashes| == |bucket| && r > 0
    ensures UpTo(hashes, bucket, r, n) == UpTo(hashes, bucket, r - 1, n) + multiset(Members(hashes, bucket, r - 1, n))
  {
  }

  lemma {:induction false} AddBoth<T>(a: multiset<T>, b: multiset<T>, c: multiset<T>, d: multiset<T>)
    ensures (a + c) + (b + d) == (a + b) + (c + d)
    ensures c + multiset{} == c && multiset{} + d == d
  {
  }

  lemma {:induction false} MembersStep(hashes: seq<nat>, bucket: seq<Byte>, r: nat, n: nat)
    requires n < |hashes| == |bucket|
    ensures multiset(Members(hashes, bucket, r, n + 1)) == multiset(Members(hashes, bucket, r, n)) +
              if bucket[n] == r then multiset{HashedSlot(hashes[n], n)} else multiset{}
  {
  }

  lemma {:induction false} AllSlotsSnoc(hashes: seq<nat>, n: nat)
    requires 0 < n <= |hashes|
    ensures AllSlots(hashes, n) == AllSlots(hashes, n - 1) + [HashedSlot(hashes[n - 1], n - 1)]
    ensures multiset(AllSlots(hashes, n)) ==
            multiset(AllSlots(hashes, n - 1)) + multiset{HashedSlot(hashes[n - 1], n - 1)}
  {
  }

  /** Every slot is in exactly one range. */
  lemma {:induction false} UpToAll(hashes: seq<nat>, bucket: seq<Byte>, r: nat, n: nat)
    requires n <= |hashes| == |bucket|
    requires forall j :: 0 <= j < n ==> bucket[j] < r
    ensures UpTo(hashes, bucket, r, n) == multiset(AllSlots(hashes, n))
    decreases n
  {
    hide UpTo;
    if n == 0 {
      UpToNone(hashes, bucket, r);
    } else {
      hide AllSlots;
      UpToAll(hashes, bucket, r, n - 1);
      UpToStep(hashes, bucket, r, n - 1);
      AllSlotsSnoc(hashes, n);
    }
  }

  lemma {:induction false} UpToNone(hashes: seq<nat>, bucket: seq<Byte>, r: nat)
    requires |hashes| == |bucket|
    ensures UpTo(hashes, bucket, r, 0) == multiset{}
    decreases r
  {
    if r > 0 { UpToNone(hashes, bucket, r - 1); }
  }

  lemma {:induction false} MembersAre(hashes: seq<nat>, bucket: seq<Byte>, r: nat, n: nat, x: HashedSlot)
    requires n <= |hashes| == |bucket| && x in Members(hashes, bucket, r, n)
    ensures x.slot < n && x.hash == hashes[x.slot] && bucket[x.slot] == r
    decreases n
  {
    if n > 0 && x in Members(hashes, bucket, r, n - 1) { MembersAre(hashes, bucket, r, n - 1, x); }
  }

  /** A slot of an earlier range has the smaller hash. */
  lemma {:induction false} AcrossRanges(hashes: seq<nat>, ranges: nat, bucket: seq<Byte>, a: HashedSlot, b: HashedSlot)
    requires Assigned(hashes, ranges, bucket)
    requires a.slot < |hashes| && b.slot < |hashes| && a.hash == hashes[a.slot] && b.hash == hashes[b.slot]
    requires bucket[a.slot] < bucket[b.slot]
    ensures a.hash < b.hash
  {
    if b.hash <= a.hash { RangeMonotone(b.hash, a.hash, ranges); }
  }

  ghost predicate ElementsBelow(hashes: seq<nat>, bucket: seq<Byte>, r: nat, out: seq<HashedSlot>)
    requires |hashes| == |bucket|
  {
    forall x :: x in out ==> x.slot < |hashes| && x.hash == hashes[x.slot] && bucket[x.slot] < r
  }

  /** Appending the next sorted range keeps the output sorted and complete. */
  lemma {:induction false} AppendRange(
    hashes: seq<nat>, ranges: nat, bucket: seq<Byte>, r: nat, out: seq<HashedSlot>, part: seq<HashedSlot>)
    requires Assigned(hashes, ranges, bucket)
    requires Ordered(out) && multiset(out) == UpTo(hashes, bucket, r, |hashes|)
    requires ElementsBelow(hashes, bucket, r, out)
    requires SortedRange(hashes, bucket, r, part)
    ensures Ordered(out + part) && multiset(out + part) == UpTo(hashes, bucket, r + 1, |hashes|)
    ensures ElementsBelow(hashes, bucket, r + 1, out + part)
  {
    forall x | x in part
      ensures x.slot < |hashes| && x.hash == hashes[x.slot] && bucket[x.slot] == r
    {
      assert x in multiset(part);
      MembersAre(hashes, bucket, r, |hashes|, x);
    }
    forall a, b | 0 <= a < |out| && 0 <= b < |part| ensures out[a].hash <= part[b].hash {
      assert out[a] in out && part[b] in part;
      AcrossRanges(hashes, ranges, bucket, out[a], part[b]);
    }
  }

  /** Whatever correct sort is used for the ranges, their concatenation sorts all slots. */
  lemma {:induction false} ConcatSorts(hashes: seq<nat>, ranges: nat, bucket: seq<Byte>, parts: seq<seq<HashedSlot>>)
    requires Assigned(hashes, ranges, bucket)
    requires forall r :: 0 <= r < |parts| ==> SortedRange(hashes, bucket, r, parts[r])
    ensures Ordered(Concat(parts)) && multiset(Concat(parts)) == UpTo(hashes, bucket, |parts|, |hashes|)
    ensures ElementsBelow(hashes, bucket, |parts|, Concat(parts))
    decreases |parts|
  {
    if parts != [] {
      var k := |parts| - 1;
      ConcatSorts(hashes, ranges, bucket, parts[..k]);
      AppendRange(hashes, ranges, bucket, k, Concat(parts[..k]), parts[k]);
    }
  }

  function NumRanges(slots: nat, rangeSlots: nat): nat
    requires rangeSlots > 0
  {
    var wanted := Quotient((slots + rangeSlots - 1) % TWO64, rangeSlots);
    if wanted < 256 then wanted else 256
  }

  /** Where the rounding up does not overflow, there are as few ranges as hold all slots at `rangeSlots` each, but
  at most 256. */
  lemma {:induction false} NumRangesIs(slots: nat, rangeSlots: nat, k: nat)
    requires 0 < rangeSlots && slots + rangeSlots <= TWO64
    ensures NumRanges(slots, rangeSlots) <= 256
    ensures k < 256 ==> (NumRanges(slots, rangeSlots) <= k <==> slots <= k * rangeSlots)
  {
    DivLess(slots + rangeSlots - 1, rangeSlots, k + 1);
    MulOverSum(k, 1, rangeSlots);
    assert (slots + rangeSlots - 1) % TWO64 == slots + rangeSlots - 1;
  }

  lemma {:induction false} NumRangesZero(slots: nat, rangeSlots: nat)
    requires 0 < rangeSlots < TWO64 && slots < TWO64
    ensures NumRanges(slots, rangeSlots) == 0 <==> slots == 0 || slots + rangeSlots > TWO64
  {
    var total := slots + rangeSlots - 1;
    if total >= TWO64 {
      assert total % TWO64 == total - TWO64;
      DivLess(total - TWO64, rangeSlots, 1);
    } else if slots > 0 {
      assert total % TWO64 == total;
      DivMonotone(rangeSlots, total, rangeSlots);
      assert rangeSlots / rangeSlots == 1;
    } else {
      assert total % TWO64 == total;
      DivLess(total, rangeSlots, 1);
    }
  }

  /** Yields every slot in ascending order of its key hash. Nothing is yielded when the range count
  computation overflows 64 bits. */
  method Sorted(hashes: seq<nat>, rangeSlots: nat, workers: nat) returns (out: seq<HashedSlot>)
    requires AreHashes(hashes) && 0 < rangeSlots < TWO64 && workers > 0
    ensures Ordered(out)
    ensures |hashes| + rangeSlots <= TWO64 ==> multiset(out) == multiset(AllSlots(hashes, |hashes|))
    ensures |hashes| + rangeSlots > TWO64 ==> out == []
  {
    hide RangeOf;
    var ranges := NumRanges(|hashes|, rangeSlots);
    NumRangesZero(|hashes|, rangeSlots);
    if ranges == 0 {
      out := [];
      assert |hashes| == 0 ==> AllSlots(hashes, 0) == [];
    } else if ranges == 1 {
      out := SortByHash(AllSlots(hashes, |hashes|));
    } else {
      var bucket := AssignRanges(hashes, ranges, workers);
      out := MergeRanges(hashes, ranges, bucket[..]);
    }
  }

  lemma {:induction false} AllSlotsOnce(hashes: seq<nat>, n: nat, x: HashedSlot)
    requires n <= |hashes|
    ensures multiset(AllSlots(hashes, n))[x] == if x.slot < n && x.hash == hashes[x.slot] then 1 else 0
    decreases n
  {
    if n > 0 {
      AllSlotsOnce(hashes, n - 1, x);
      AllSlotsSnoc(hashes, n);
    }
  }

  lemma {:induction false} TwiceCounted(s: seq<HashedSlot>, a: nat, b: nat)
    requires a < b < |s| && s[a] == s[b]
    ensures multiset(s)[s[a]] >= 2
  {
    assert s == s[..b] + [s[b]] + s[b + 1..];
    assert s[..b][a] in multiset(s[..b]);
  }

  /** Every slot is yielded exactly once; when no two keys have the same hash the order is strict. */
  lemma {:induction false} StrictlyAscending(hashes: seq<nat>, out: seq<HashedSlot>, a: nat, b: nat)
    requires Ordered(out) && multiset(out) == multiset(AllSlots(hashes, |hashes|)) && a < b < |out|
    ensures out[a].slot != out[b].slot
    ensures (forall i, j :: 0 <= i < j < |hashes| ==> hashes[i] != hashes[j]) ==> out[a].hash < out[b].hash
  {
    var x, y := out[a], out[b];
    assert x in multiset(out) && y in multiset(out);
    AllSlotsOnce(hashes, |hashes|, x);
    AllSlotsOnce(hashes, |hashes|, y);
    assert x.hash == hashes[x.slot] && y.hash == hashes[y.slot];
    if x == y { TwiceCounted(out, a, b); }
  }

  method MergeRanges(hashes: seq<nat>, ranges: nat, bucket: seq<Byte>) returns (out: seq<HashedSlot>)
    requires AreHashes(hashes) && 1 <= ranges <= 256 && Assigned(hashes, ranges, bucket)
    ensures Ordered(out) && multiset(out) == multiset(AllSlots(hashes, |hashes|))
  {
    out := [];
    for r := 0 to ranges
      invariant Ordered(out) && multiset(out) == UpTo(hashes, bucket, r, |hashes|)
      invariant ElementsBelow(hashes, bucket, r, out)
    {
      var members := CollectRange(hashes, bucket, r);
      var part := SortByHash(members);
      AppendRange(hashes, ranges, bucket, r, out, part);
      out := out + part;
    }
    forall j | 0 <= j < |hashes| ensures bucket[j] < ranges {
      RangeFits(hashes[j], ranges);
    }
    UpToAll(hashes, bucket, ranges, |hashes|);
  }
}
