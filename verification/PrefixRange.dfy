/** The key range an iterator over a prefix asks for: byte strings in lexicographic order, from prefix + start up
to the first key after the prefix. */
module PrefixRange {
  import opened Wrappers
  import opened Stems

  type Key = seq<Byte>

  predicate Less(a: Key, b: Key)
    decreases |a|
  {
    b != [] && (a == [] || a[0] < b[0] || (a[0] == b[0] && Less(a[1..], b[1..])))
  }

  predicate LessOrEqual(a: Key, b: Key) { a == b || Less(a, b) }

  predicate AllMax(p: Key) { forall i :: 0 <= i < |p| ==> p[i] == 0xFF }

  /** p with the byte at i, the last one below 0xFF, incremented and the rest cut off. */
  predicate IsIncremented(p: Key, i: nat, end: Key) {
    i < |p| && p[i] < 0xFF && AllMax(p[i + 1..]) && end == p[..i] + [p[i] + 1]
  }

  ghost predicate IsUpper(p: Key, upper: Option<Key>) {
    match upper
    case None => AllMax(p)
    case Some(end) => exists i: nat :: IsIncremented(p, i, end)
  }

  /** Increments the last byte that is not 0xFF; none if there is no such byte. */
  method UpperBoundForPrefix(prefix: Key) returns (upper: Option<Key>)
    ensures IsUpper(prefix, upper)
  {
    var end := new Byte[|prefix|](i requires 0 <= i < |prefix| => prefix[i]);
    assert end[..] == prefix;
    var i := |prefix| - 1;
    while i >= 0
      invariant -1 <= i < |prefix| && end[..] == prefix
      invariant AllMax(prefix[i + 1..])
    {
      if end[i] != 0xFF {
        end[i] := end[i] + 1;
        assert end[..i + 1] == prefix[..i] + [prefix[i] + 1];
        assert IsIncremented(prefix, i, end[..i + 1]);
        return Some(end[..i + 1]);
      }
      assert prefix[i..] == [prefix[i]] + prefix[i + 1..];
      i := i - 1;
    }
    return None;
  }

  datatype Range = Range(lower: Key, upper: Option<Key>)

  predicate InRange(k: Key, r: Range) {
    LessOrEqual(r.lower, k) && (r.upper.Some? ==> Less(k, r.upper.value))
  }

  /** The bounds given to the store: an empty prefix has no upper bound. */
  method IteratorRange(prefix: Key, start: Key) returns (r: Range)
    ensures r.lower == prefix + start && IsUpper(prefix, r.upper)
    ensures forall k :: InRange(k, r) <==> prefix <= k && LessOrEqual(prefix + start, k)
  {
    var upper := None;
    if |prefix| > 0 { upper := UpperBoundForPrefix(prefix); }
    r := Range(prefix + start, upper);
    forall k ensures InRange(k, r) <==> prefix <= k && LessOrEqual(prefix + start, k) {
      RangeIsPrefix(prefix, start, upper, k);
    }
  }

  lemma {:induction false} LessTransitive(a: Key, b: Key, c: Key)
    requires Less(a, b) && Less(b, c)
    ensures Less(a, c)
    decreases |a|
  {
    if a != [] && a[0] == b[0] && b[0] == c[0] { LessTransitive(a[1..], b[1..], c[1..]); }
  }

  lemma {:induction false} LessIrreflexive(a: Key)
    ensures !Less(a, a)
    decreases |a|
  {
    if a != [] { LessIrreflexive(a[1..]); }
  }

  lemma {:induction false} PrefixBelow(p: Key, k: Key)
    requires p <= k
    ensures LessOrEqual(p, k)
    decreases |p|
  {
    if p != [] {
      PrefixBelow(p[1..], k[1..]);
      assert p == [p[0]] + p[1..] && k == [k[0]] + k[1..];
    }
  }

  lemma {:induction false} TailOrEqual(p: Key, k: Key)
    requires LessOrEqual(p, k) && p != []
    ensures k != [] && p[0] <= k[0] && (p[0] == k[0] ==> LessOrEqual(p[1..], k[1..]))
  {
  }

  /** Nothing follows a string of 0xFF except its own extensions. */
  lemma {:induction false} AboveMax(p: Key, k: Key)
    requires AllMax(p) && LessOrEqual(p, k)
    ensures p <= k
    decreases |p|
  {
    if p != [] {
      TailOrEqual(p, k);
      AboveMax(p[1..], k[1..]);
      assert p == [p[0]] + p[1..] && k == [k[0]] + k[1..];
    }
  }

  lemma {:induction false} IncrementedTail(p: Key, i: nat, end: Key)
    requires IsIncremented(p, i, end) && i > 0
    ensures p[0] == end[0] && IsIncremented(p[1..], i - 1, end[1..])
  {
    assert p[1..][i - 1 + 1..] == p[i + 1..];
    assert end[1..] == p[1..][..i - 1] + [p[i] + 1];
  }

  /** Between the prefix and its upper bound lie only keys with the prefix. */
  lemma {:induction false} BetweenHasPrefix(p: Key, i: nat, end: Key, k: Key)
    requires IsIncremented(p, i, end) && LessOrEqual(p, k) && Less(k, end)
    ensures p <= k
    decreases |p|
  {
    TailOrEqual(p, k);
    if i > 0 {
      IncrementedTail(p, i, end);
      BetweenHasPrefix(p[1..], i - 1, end[1..], k[1..]);
    } else {
      assert end[1..] == [];
      AboveMax(p[1..], k[1..]);
    }
    assert p == [p[0]] + p[1..] && k == [k[0]] + k[1..];
  }

  /** Every key with the prefix lies below the upper bound. */
  lemma {:induction false} PrefixBelowUpper(p: Key, i: nat, end: Key, k: Key)
    requires IsIncremented(p, i, end) && p <= k
    ensures Less(k, end)
    decreases |p|
  {
    if i > 0 {
      IncrementedTail(p, i, end);
      PrefixBelowUpper(p[1..], i - 1, end[1..], k[1..]);
    }
  }

  /** A key lies in the range exactly when it has the prefix and is not before prefix + start. */
  lemma {:induction false} RangeIsPrefix(p: Key, start: Key, upper: Option<Key>, k: Key)
    requires IsUpper(p, upper) || (p == [] && upper.None?)
    ensures InRange(k, Range(p + start, upper)) <==> p <= k && LessOrEqual(p + start, k)
  {
    PrefixBelow(p, p + start);
    if LessOrEqual(p + start, k) {
      assert LessOrEqual(p, k) by {
        if p != p + start && p + start != k { LessTransitive(p, p + start, k); }
      }
      match upper
      case None => AboveMax(p, k);
      case Some(end) =>
        var i: nat :| IsIncremented(p, i, end);
        if Less(k, end) { BetweenHasPrefix(p, i, end, k); }
        if p <= k { PrefixBelowUpper(p, i, end, k); }
    }
  }

  lemma {:induction false} Trichotomy(a: Key, b: Key)
    ensures Less(a, b) || a == b || Less(b, a)
    decreases |a|
  {
    if a != [] && b != [] {
      Trichotomy(a[1..], b[1..]);
      assert a == [a[0]] + a[1..] && b == [b[0]] + b[1..];
    }
  }

  ghost predicate AboveAll(p: Key, u: Key) { forall k :: p <= k ==> Less(k, u) }

  /** The bound is the least key above every key with the prefix, and a prefix of 0xFF bytes has none. */
  lemma {:induction false} UpperIsLeast(p: Key, upper: Option<Key>, u: Key)
    requires IsUpper(p, upper)
    ensures AboveAll(p, u) <==> upper.Some? && LessOrEqual(upper.value, u)
  {
    if AboveAll(p, u) {
      assert Less(p, u);
      LessIrreflexive(u);
      assert !(p <= u);
      RangeIsPrefix(p, [], upper, u);
      assert p + [] == p;
      assert upper.Some? && !Less(u, upper.value);
      Trichotomy(upper.value, u);
    }
    if upper.Some? && LessOrEqual(upper.value, u) {
      forall k | p <= k ensures Less(k, u) {
        var i: nat :| IsIncremented(p, i, upper.value);
        PrefixBelowUpper(p, i, upper.value, k);
        if upper.value != u { LessTransitive(k, upper.value, u); }
      }
    }
  }
}
