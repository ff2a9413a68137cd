/** The two-level code draw: top codes have their own counts, the rest are grouped by equal count. */
module CodeDraw {
  import opened Arithmetic
  import opened Weights

  /** A group of `codes` codes, each used by `accounts` accounts. */
  datatype CodeGroup = CodeGroup(accounts: nat, codes: nat)

  function Repeat(v: nat, n: nat): (s: seq<nat>) { seq(n, i => v) }

  /** Account count of every code in the first i groups, in rank order. */
  function GroupWeights(g: seq<CodeGroup>, i: nat): seq<nat>
    requires i <= |g|
    decreases i
  {
    if i == 0 then [] else GroupWeights(g, i - 1) + Repeat(g[i - 1].accounts, g[i - 1].codes)
  }

  function AllWeights(top: seq<nat>, g: seq<CodeGroup>): seq<nat> { top + GroupWeights(g, |g|) }

  /** Total account count of each group. */
  function GroupTotals(g: seq<CodeGroup>): seq<nat> {
    seq(|g|, i requires 0 <= i < |g| => g[i].accounts * g[i].codes)
  }

  function CodesBefore(g: seq<CodeGroup>, i: nat): nat
    requires i <= |g|
    decreases i
  {
    if i == 0 then 0 else CodesBefore(g, i - 1) + g[i - 1].codes
  }

  lemma {:induction false} RepeatPrefix(v: nat, n: nat, k: nat)
    requires k <= n
    ensures PrefixSum(Repeat(v, n), k) == v * k
    decreases k
  {
    if k > 0 {
      RepeatPrefix(v, n, k - 1);
      assert v * k == v * (k - 1) + v;
    }
  }

  /** The flat list of the first i groups has their codes and their weight. */
  lemma {:induction false} GroupWeightsTotal(g: seq<CodeGroup>, i: nat)
    requires i <= |g|
    ensures |GroupWeights(g, i)| == CodesBefore(g, i)
    ensures Sum(GroupWeights(g, i)) == PrefixSum(GroupTotals(g), i)
    decreases i
  {
    if i > 0 {
      GroupWeightsTotal(g, i - 1);
      var v, n := g[i - 1].accounts, g[i - 1].codes;
      PrefixSumConcat(GroupWeights(g, i - 1), Repeat(v, n), n);
      RepeatPrefix(v, n, n);
    }
  }

  lemma {:induction false} GroupWeightsExtend(g: seq<CodeGroup>, i: nat, j: nat) returns (tail: seq<nat>)
    requires i <= j <= |g|
    ensures GroupWeights(g, j) == GroupWeights(g, i) + tail
    decreases j
  {
    if i == j {
      tail := [];
    } else {
      var t := GroupWeightsExtend(g, i, j - 1);
      tail := t + Repeat(g[j - 1].accounts, g[j - 1].codes);
    }
  }

  /** Integer division inside a group finds the code that owns x. */
  lemma {:induction false} WithinGroup(v: nat, n: nat, x: nat)
    requires x < v * n
    ensures v > 0 && Owns(Repeat(v, n), x / v, x)
  {
    var q := x / v;
    assert x == v * q + x % v;
    if q >= n { MulMonotone(n, q, v); }
    RepeatPrefix(v, n, q);
    RepeatPrefix(v, n, q + 1);
    assert v * (q + 1) == v * q + v;
  }

  /** The owner inside group i owns the shifted number in the flat list of all rest codes. */
  lemma {:induction false} OwnsInGroup(g: seq<CodeGroup>, i: nat, k: nat, x: nat)
    requires i < |g| && Owns(Repeat(g[i].accounts, g[i].codes), k, x)
    ensures Owns(GroupWeights(g, |g|), CodesBefore(g, i) + k, PrefixSum(GroupTotals(g), i) + x)
  {
    GroupWeightsTotal(g, i);
    var a, b := GroupWeights(g, i), Repeat(g[i].accounts, g[i].codes);
    OwnsConcat(a, b, k, x);
    var tail := GroupWeightsExtend(g, i + 1, |g|);
    OwnsConcat(a + b, tail, |a| + k, Sum(a) + x);
  }

  datatype CodeModel = CodeModel(
    topCum: seq<nat>, topWeight: nat,
    restGroupCum: seq<nat>, restGroupOffset: seq<nat>, restTotalCodes: nat,
    totalWeight: nat)

  predicate IsModel(cm: CodeModel, top: seq<nat>, g: seq<CodeGroup>) {
    && Cumulative(cm.topCum, top)
    && cm.topWeight == Sum(top)
    && Cumulative(cm.restGroupCum, GroupTotals(g))
    && |cm.restGroupOffset| == |g|
    && (forall i :: 0 <= i < |g| ==> cm.restGroupOffset[i] == CodesBefore(g, i))
    && cm.restTotalCodes == CodesBefore(g, |g|)
    && cm.totalWeight == Sum(AllWeights(top, g))
  }

  lemma {:induction false} AllWeightsTotal(top: seq<nat>, g: seq<CodeGroup>)
    ensures Sum(AllWeights(top, g)) == Sum(top) + Sum(GroupTotals(g))
    ensures |AllWeights(top, g)| == |top| + CodesBefore(g, |g|)
  {
    GroupWeightsTotal(g, |g|);
    PrefixSumConcat(top, GroupWeights(g, |g|), |GroupWeights(g, |g|)|);
  }

  lemma {:induction false} CodesBeforeMonotone(g: seq<CodeGroup>, i: nat, j: nat)
    requires i <= j <= |g|
    ensures CodesBefore(g, i) <= CodesBefore(g, j)
    decreases j
  {
    if i < j { CodesBeforeMonotone(g, i, j - 1); }
  }

  method NewCodeModel(top: seq<nat>, g: seq<CodeGroup>) returns (cm: CodeModel)
    requires Sum(AllWeights(top, g)) < TWO63 && CodesBefore(g, |g|) < TWO63
    ensures IsModel(cm, top, g)
  {
    hide PrefixSum, AllWeights, CodesBefore;
    AllWeightsTotal(top, g);
    var topCum, topWeight := Accumulate(top);
    var offset, codes, cum, rest := AccumulateGroups(g);
    cm := CodeModel(topCum, topWeight, cum, offset, codes, (topWeight + rest) % TWO64);
  }

  method AccumulateGroups(g: seq<CodeGroup>) returns (offset: seq<nat>, codes: nat, cum: seq<nat>, rest: nat)
    requires Sum(GroupTotals(g)) < TWO63 && CodesBefore(g, |g|) < TWO63
    ensures |offset| == |g| && forall i :: 0 <= i < |g| ==> offset[i] == CodesBefore(g, i)
    ensures codes == CodesBefore(g, |g|)
    ensures Cumulative(cum, GroupTotals(g)) && rest == Sum(GroupTotals(g))
  {
    hide PrefixSum, CodesBefore;
    offset, codes, cum, rest := [], 0, [], 0;
    ghost var totals := GroupTotals(g);
    NothingYet(g);
    for i := 0 to |g|
      invariant |offset| == |cum| == i
      invariant codes == CodesBefore(g, i) && rest == PrefixSum(totals, i)
      invariant forall a :: 0 <= a < i ==> offset[a] == CodesBefore(g, a)
      invariant forall a :: 0 <= a < i ==> cum[a] == PrefixSum(totals, a + 1)
    {
      NextGroup(g, i);
      offset := offset + [codes];
      codes := (codes + g[i].codes) % TWO64;
      rest := (rest + g[i].accounts * g[i].codes) % TWO64;
      cum := cum + [rest];
    }
  }

  lemma {:induction false} NothingYet(g: seq<CodeGroup>)
    ensures CodesBefore(g, 0) == 0 && PrefixSum(GroupTotals(g), 0) == 0
  {
  }

  lemma {:induction false} NextGroup(g: seq<CodeGroup>, i: nat)
    requires i < |g|
    ensures CodesBefore(g, i) + g[i].codes == CodesBefore(g, i + 1) <= CodesBefore(g, |g|)
    ensures PrefixSum(GroupTotals(g), i) + g[i].accounts * g[i].codes == PrefixSum(GroupTotals(g), i + 1)
    ensures PrefixSum(GroupTotals(g), i + 1) <= Sum(GroupTotals(g))
  {
    CodesBeforeMonotone(g, i + 1, |g|);
    PrefixSumMonotone(GroupTotals(g), i + 1, |g|);
  }

  /** Draws a code rank: the rank returned owns r in the flat list of account counts of all codes. */
  method Draw(cm: CodeModel, top: seq<nat>, g: seq<CodeGroup>, r: nat) returns (rank: nat)
    requires IsModel(cm, top, g) && r < cm.totalWeight
    ensures Owns(AllWeights(top, g), rank, r)
  {
    hide Owns, PrefixSum, CodesBefore, AllWeights;
    AllWeightsTotal(top, g);
    if r < cm.topWeight {
      rank := SearchOwner(cm.topCum, top, r);
      AllWeightsOwns(top, g, rank, r);
    } else {
      rank := DrawRest(cm, top, g, r - cm.topWeight);
    }
  }

  lemma {:induction false} AllWeightsOwns(top: seq<nat>, g: seq<CodeGroup>, k: nat, r: nat)
    ensures Owns(top, k, r) ==> Owns(AllWeights(top, g), k, r)
    ensures Owns(GroupWeights(g, |g|), k, r) ==> Owns(AllWeights(top, g), |top| + k, Sum(top) + r)
  {
    OwnsConcat(top, GroupWeights(g, |g|), k, r);
  }

  method DrawRest(cm: CodeModel, top: seq<nat>, g: seq<CodeGroup>, r: nat) returns (rank: nat)
    requires IsModel(cm, top, g) && r < Sum(GroupTotals(g))
    ensures Owns(AllWeights(top, g), rank, Sum(top) + r)
  {
    hide CodesBefore, AllWeights, GroupWeights, Repeat;
    ghost var totals := GroupTotals(g);
    var i := SearchOwner(cm.restGroupCum, totals, r);
    var base := if i > 0 then cm.restGroupCum[i - 1] else 0;
    assert base == PrefixSum(totals, i);
    assert PrefixSum(totals, i + 1) == base + g[i].accounts * g[i].codes;
    WithinGroup(g[i].accounts, g[i].codes, r - base);
    var within := (r - base) / g[i].accounts;
    OwnsInGroup(g, i, within, r - base);
    AllWeightsOwns(top, g, CodesBefore(g, i) + within, r);
    rank := |cm.topCum| + cm.restGroupOffset[i] + within;
  }

  /** Each rank is drawn by exactly as many random numbers as the code has accounts, and no number draws
  two ranks. */
  lemma {:induction false} DrawIsExact(top: seq<nat>, g: seq<CodeGroup>, rank: nat)
    requires rank < |AllWeights(top, g)|
    ensures |set r: nat | r < Sum(AllWeights(top, g)) && Owns(AllWeights(top, g), rank, r)| == AllWeights(top, g)[rank]
    ensures forall r: nat, other: nat ::
              Owns(AllWeights(top, g), rank, r) && Owns(AllWeights(top, g), other, r) ==> other == rank
  {
    var w := AllWeights(top, g);
    OwnedCount(w, rank);
    forall r: nat, other: nat | Owns(w, rank, r) && Owns(w, other, r) ensures other == rank {
      OwnerUnique(w, rank, other, r);
    }
  }

  /** Account count of a rank: its own count for a top code, its group's count otherwise. */
  lemma {:induction false} WeightOfRank(top: seq<nat>, g: seq<CodeGroup>, i: nat, k: nat)
    ensures k < |top| ==> AllWeights(top, g)[k] == top[k]
    ensures i < |g| && k < g[i].codes ==>
              && |top| + CodesBefore(g, i) + k < |AllWeights(top, g)|
              && AllWeights(top, g)[|top| + CodesBefore(g, i) + k] == g[i].accounts
  {
    if i < |g| && k < g[i].codes {
      GroupWeightsTotal(g, i);
      var tail := GroupWeightsExtend(g, i + 1, |g|);
      assert GroupWeights(g, i + 1) == GroupWeights(g, i) + Repeat(g[i].accounts, g[i].codes);
      assert GroupWeights(g, |g|)[CodesBefore(g, i) + k] == g[i].accounts;
    }
  }
}
