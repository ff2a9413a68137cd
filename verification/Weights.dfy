/** Weighted draws by cumulative counts: one number below the total weight selects an index with exactly
its own weight. */
module Weights {
  import opened Arithmetic

  function PrefixSum(w: seq<nat>, k: nat): nat
    requires k <= |w|
    decreases k
  {
    if k == 0 then 0 else PrefixSum(w, k - 1) + w[k - 1]
  }

  function Sum(w: seq<nat>): nat { PrefixSum(w, |w|) }

  /** r falls in the interval of the number line that belongs to index k. */
  predicate Owns(w: seq<nat>, k: nat, r: nat) {
    k < |w| && PrefixSum(w, k) <= r < PrefixSum(w, k + 1)
  }

  lemma {:induction false} PrefixSumMonotone(w: seq<nat>, j: nat, k: nat)
    requires j <= k <= |w|
    ensures PrefixSum(w, j) <= PrefixSum(w, k)
    decreases k
  {
    if j < k { PrefixSumMonotone(w, j, k - 1); }
  }

  /** A prefix sum only depends on the prefix. */
  lemma {:induction false} PrefixSumOfPrefix(a: seq<nat>, b: seq<nat>, k: nat)
    requires k <= |a|
    ensures PrefixSum(a + b, k) == PrefixSum(a, k)
    decreases k
  {
    if k > 0 { PrefixSumOfPrefix(a, b, k - 1); }
  }

  lemma {:induction false} PrefixSumConcat(a: seq<nat>, b: seq<nat>, k: nat)
    requires k <= |b|
    ensures PrefixSum(a + b, |a| + k) == Sum(a) + PrefixSum(b, k)
    decreases k
  {
    if k == 0 {
      PrefixSumOfPrefix(a, b, |a|);
    } else {
      PrefixSumConcat(a, b, k - 1);
      assert (a + b)[|a| + (k - 1)] == b[k - 1];
      assert |a| + k - 1 == |a| + (k - 1);
    }
  }

  /** Ownership in a concatenation: in the first part as there, in the second part shifted. */
  lemma {:induction false} OwnsConcat(a: seq<nat>, b: seq<nat>, k: nat, r: nat)
    ensures Owns(a, k, r) ==> Owns(a + b, k, r)
    ensures Owns(b, k, r) ==> Owns(a + b, |a| + k, Sum(a) + r)
  {
    if k < |a| {
      PrefixSumOfPrefix(a, b, k);
      PrefixSumOfPrefix(a, b, k + 1);
    }
    if k < |b| {
      PrefixSumConcat(a, b, k);
      PrefixSumConcat(a, b, k + 1);
      assert |a| + k + 1 == |a| + (k + 1);
    }
  }

  /** At most one index owns r. */
  lemma {:induction false} OwnerUnique(w: seq<nat>, j: nat, k: nat, r: nat)
    requires Owns(w, j, r) && Owns(w, k, r)
    ensures j == k
  {
    if j < k {
      PrefixSumMonotone(w, j + 1, k);
    } else if k < j {
      PrefixSumMonotone(w, k + 1, j);
    }
  }

  /** The numbers that index k owns: there are w[k] of them, all below the total. */
  lemma {:induction false} OwnedCount(w: seq<nat>, k: nat)
    requires k < |w|
    ensures |set r: nat | r < Sum(w) && Owns(w, k, r)| == w[k]
  {
    PrefixSumMonotone(w, k + 1, |w|);
    var lo, hi := PrefixSum(w, k), PrefixSum(w, k + 1);
    assert (set r: nat | r < Sum(w) && Owns(w, k, r)) == Interval(lo, hi);
  }

  ghost function Interval(lo: nat, hi: nat): (s: set<nat>)
    requires lo <= hi
    ensures |s| == hi - lo
    ensures forall r: nat :: r in s <==> lo <= r < hi
    decreases hi
  {
    if lo == hi then {} else Interval(lo, hi - 1) + {hi - 1}
  }

  /** Binary search for the first cumulative count above r. */
  method Search(cum: seq<nat>, r: nat) returns (i: nat)
    requires forall a, b :: 0 <= a <= b < |cum| ==> cum[a] <= cum[b]
    ensures i <= |cum|
    ensures forall a :: 0 <= a < i ==> cum[a] <= r
    ensures forall a :: i <= a < |cum| ==> cum[a] > r
  {
    i := 0;
    var j := |cum|;
    while i < j
      invariant i <= j <= |cum|
      invariant forall a :: 0 <= a < i ==> cum[a] <= r
      invariant forall a :: j <= a < |cum| ==> cum[a] > r
    {
      var h := (i + j) / 2;
      if cum[h] > r { j := h; } else { i := h + 1; }
    }
  }

  predicate Cumulative(cum: seq<nat>, w: seq<nat>) {
    && |cum| == |w|
    && forall i :: 0 <= i < |w| ==> cum[i] == PrefixSum(w, i + 1)
  }

  lemma {:induction false} CumulativeSorted(cum: seq<nat>, w: seq<nat>)
    requires Cumulative(cum, w)
    ensures forall a, b :: 0 <= a <= b < |cum| ==> cum[a] <= cum[b]
  {
    forall a, b | 0 <= a <= b < |cum| ensures cum[a] <= cum[b] {
      PrefixSumMonotone(w, a + 1, b + 1);
    }
  }

  /** Running totals of the weights, as 64-bit words. */
  method Accumulate(w: seq<nat>) returns (cum: seq<nat>, total: nat)
    requires Sum(w) < TWO64
    ensures Cumulative(cum, w) && total == Sum(w)
  {
    cum, total := [], 0;
    for i := 0 to |w|
      invariant |cum| == i && total == PrefixSum(w, i)
      invariant forall a :: 0 <= a < i ==> cum[a] == PrefixSum(w, a + 1)
    {
      PrefixSumMonotone(w, i + 1, |w|);
      total := (total + w[i]) % TWO64;
      cum := cum + [total];
    }
  }

  /** Searching the running totals finds the owner. */
  method SearchOwner(cum: seq<nat>, ghost w: seq<nat>, r: nat) returns (k: nat)
    requires Cumulative(cum, w) && r < Sum(w)
    ensures Owns(w, k, r)
  {
    CumulativeSorted(cum, w);
    k := Search(cum, r);
    assert |w| > 0;
    assert cum[|w| - 1] == Sum(w);
    assert k < |w|;
    assert cum[k] == PrefixSum(w, k + 1);
    if k > 0 { assert cum[k - 1] == PrefixSum(w, k); }
  }

  datatype LenDist = LenDist(cum: seq<nat>, total: nat)

  method NewLenDist(counts: seq<nat>) returns (d: LenDist)
    requires Sum(counts) < TWO64
    ensures Cumulative(d.cum, counts) && d.total == Sum(counts)
  {
    var cum, total := Accumulate(counts);
    d := LenDist(cum, total);
  }

  /** Draws a length from a histogram; r is the random number. */
  method DrawLen(counts: seq<nat>, r: nat) returns (k: nat)
    requires Sum(counts) < TWO63 && r < Sum(counts)
    ensures Owns(counts, k, r)
  {
    var d := NewLenDist(counts);
    k := SearchOwner(d.cum, counts, r);
  }
}
