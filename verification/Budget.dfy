/** Splitting a slot budget between drawn contracts and giants: the bounded fixed-point search for the number of
giants. */
module Budget {
  import opened Wrappers
  import opened Arithmetic
  import opened GiantSizes
  import opened GiantTotals

  /** Mean slots of a drawn contract, in thousandths. */
  const MEAN: nat := 37327
  const STORAGE_ACCOUNTS: nat := 25_166_497
  const GIANT_ACCOUNTS: nat := 115
  /** Up to this budget the drawn-only share is at most MAX_GIANTS. */
  const MAX_BUDGET: nat := 24_808_064_296_456

  // ----- the search

  /** The share of giants among c contracts, rounded. */
  function Share(c: nat): nat {
    (2 * c * GIANT_ACCOUNTS + STORAGE_ACCOUNTS) / (2 * STORAGE_ACCOUNTS)
  }

  /** The largest number up to n of giants that fit the budget. */
  function Fitting(budget: nat, n: nat): (r: nat)
    ensures r <= n && GiantTotal(r) <= budget
    ensures r < n ==> GiantTotal(r + 1) > budget
    decreases n
  {
    if n == 0 || GiantTotal(n) <= budget then n else Fitting(budget, n - 1)
  }

  lemma {:induction false} FittingLargest(budget: nat, n: nat, m: nat)
    requires m <= n
    ensures GiantTotal(m) <= budget <==> m <= Fitting(budget, n)
  {
    hide GiantTotal, SumTo;
    var r := Fitting(budget, n);
    if m <= r { TotalGrows(m, r); } else { TotalGrows(r + 1, m); }
  }

  /** The giants among c contracts, as many of the share as fit. */
  function Giants(budget: nat, c: nat): (n: nat)
    ensures GiantTotal(n) <= budget
  {
    Fitting(budget, Share(c))
  }

  /** All contracts when n of them are giants. */
  function Contracts(budget: nat, n: nat): nat
    requires GiantTotal(n) <= budget
  {
    (budget - GiantTotal(n)) * 1000 / MEAN + n
  }

  /** Each giant more leaves room for fewer contracts. */
  lemma {:induction false} ContractsDecrease(budget: nat, n: nat, m: nat)
    requires n < m && GiantTotal(m) <= budget
    ensures GiantTotal(n) <= budget && Contracts(budget, m) < Contracts(budget, n)
  {
    hide SumTo, GiantTotal;
    TotalGrows(n, m);
    var a, b, k := (budget - GiantTotal(m)) * 1000, (budget - GiantTotal(n)) * 1000, m - n;
    assert b >= a + k * (2 * MEAN);
    DivShift(a, b, k);
  }

  lemma {:induction false} DivShift(a: nat, b: nat, k: nat)
    requires b >= a + k * (2 * MEAN)
    ensures b / MEAN >= a / MEAN + 2 * k
  {
  }

  /** The giants the next round finds when this round found n. */
  function Reply(budget: nat, n: nat): (r: nat)
    requires GiantTotal(n) <= budget
    ensures GiantTotal(r) <= budget
  {
    Giants(budget, Contracts(budget, n))
  }

  /** The giants found by round k; before the first round there are none. */
  function Found(budget: nat, k: nat): (n: nat)
    ensures GiantTotal(n) <= budget
    decreases k
  {
    if k == 0 then 0 else Reply(budget, Found(budget, k - 1))
  }

  /** The estimate of all contracts after round k. */
  function Estimate(budget: nat, k: nat): nat {
    Contracts(budget, Found(budget, k))
  }

  lemma {:induction false} FirstEstimate(budget: nat)
    ensures Estimate(budget, 0) == budget * 1000 / MEAN
  {
  }

  lemma {:induction false} NextRound(budget: nat, k: nat)
    ensures Found(budget, k + 1) == Giants(budget, Estimate(budget, k))
  {
  }

  lemma {:induction false} EstimateBound(budget: nat, k: nat)
    ensures Estimate(budget, k) <= budget * 1000 / MEAN
  {
    hide GiantTotal, SumTo, Contracts, Reply;
    FirstEstimate(budget);
    var n := Found(budget, k);
    if n > 0 { ContractsDecrease(budget, 0, n); }
  }

  /** Once a round repeats an estimate, nothing changes any more. */
  lemma {:induction false} Settled(budget: nat, j: nat, k: nat)
    requires j <= k && Estimate(budget, j + 1) == Estimate(budget, j)
    ensures Found(budget, k + 1) == Found(budget, j + 1) && Found(budget, k) == Found(budget, j)
    decreases k
  {
    hide Contracts, Reply, GiantTotal, SumTo, Giants;
    SameEstimate(budget, j);
    if j < k { Settled(budget, j, k - 1); }
  }

  lemma {:induction false} SameEstimate(budget: nat, j: nat)
    ensures Estimate(budget, j + 1) == Estimate(budget, j) <==> Found(budget, j + 1) == Found(budget, j)
  {
    hide Contracts, Reply, GiantTotal, SumTo;
    var n, m := Found(budget, j), Found(budget, j + 1);
    if n < m { ContractsDecrease(budget, n, m); } else if m < n { ContractsDecrease(budget, m, n); }
  }

  // ----- in 64 bits

  /** The share of giants among c contracts, in 64 bits. */
  function ShareWord(c: nat): nat {
    (Mul64(2 * GIANT_ACCOUNTS, c) + STORAGE_ACCOUNTS) % TWO64 / (2 * STORAGE_ACCOUNTS)
  }

  /** Counting down from n to a number of giants whose wrapped total is within the budget. */
  function Fit64(budget: nat, n: nat): (r: Option<(nat, nat)>)
    ensures r.Some? ==> r.value.0 <= n && r.value.1 <= budget
    decreases n
  {
    var total := SumTo64(n, n);
    if total.None? then None
    else if n == 0 || total.value <= budget then Some((n, total.value))
    else Fit64(budget, n - 1)
  }

  lemma {:induction false} Fit64Exact(budget: nat, n: nat)
    requires n <= MAX_GIANTS
    ensures Fit64(budget, n) == Some((Fitting(budget, n), GiantTotal(Fitting(budget, n))))
    decreases n
  {
    hide SumTo64, SumTo;
    SumTo64Exact(n, n);
    if n > 0 { Fit64Exact(budget, n - 1); }
  }

  method FitGiants(budget: nat, c: nat) returns (r: Option<(nat, nat)>)
    ensures r == Fit64(budget, ShareWord(c))
  {
    hide SumTo64;
    var n := ShareWord(c);
    var used := GiantSlotSum(n);
    while n > 0 && used.Some? && used.value > budget
      invariant used == SumTo64(n, n)
      invariant Fit64(budget, n) == Fit64(budget, ShareWord(c))
    {
      n := n - 1;
      used := GiantSlotSum(n);
    }
    r := if used.None? then None else Some((n, used.value));
  }

  lemma {:induction false} CountDown(budget: nat, n: nat)
    ensures n > 0 && GiantTotal(n) > budget ==> Fitting(budget, n - 1) == Fitting(budget, n)
    ensures n == 0 || GiantTotal(n) <= budget ==> Fitting(budget, n) == n
  {
  }

  lemma {:induction false} ShareWordExact(budget: nat, c: nat)
    requires budget <= MAX_BUDGET && c <= budget * 1000 / MEAN
    ensures ShareWord(c) == Share(c) <= MAX_GIANTS
  {
    hide Mul64, Share;
    SmallEstimate(budget, c);
  }

  lemma {:induction false} SmallEstimate(budget: nat, c: nat)
    requires budget <= MAX_BUDGET && c <= budget * 1000 / MEAN
    ensures 2 * GIANT_ACCOUNTS * c + STORAGE_ACCOUNTS < TWO64
    ensures Share(c) == (2 * GIANT_ACCOUNTS * c + STORAGE_ACCOUNTS) / (2 * STORAGE_ACCOUNTS) <= MAX_GIANTS
  {
  }

  datatype Split = Split(drawn: nat, giants: nat)

  /** The split keeps the budget: drawn contracts at the mean and the giants together do not exceed it, and
  less than one mean contract is left over. */
  predicate KeepsBudget(budget: nat, s: Split) {
    && GiantTotal(s.giants) <= budget
    && s.drawn * MEAN <= (budget - GiantTotal(s.giants)) * 1000 < (s.drawn + 1) * MEAN
  }

  /** k more rounds of the search in 64 bits, from c contracts of which n are giants; no value on a division
  by zero. */
  function Search64(budget: nat, c: nat, n: nat, k: nat): Option<Split>
    requires n <= c
    decreases k
  {
    if k == 0 then Some(Split(c - n, n))
    else
      var fit := Fit64(budget, ShareWord(c));
      if fit.None? then None
      else
        var (m, used) := fit.value;
        var next := Mul64(budget - used, 1000) / MEAN + m;
        if next == c then Some(Split(c - m, m)) else Search64(budget, next, m, k - 1)
  }

  /** One round. */
  lemma {:induction false} SearchStep(budget: nat, c: nat, n: nat, k: nat)
    requires n <= c
    ensures k == 0 ==> Search64(budget, c, n, k) == Some(Split(c - n, n))
    ensures k > 0 && Fit64(budget, ShareWord(c)).None? ==> Search64(budget, c, n, k) == None
    ensures k > 0 && Fit64(budget, ShareWord(c)).Some? ==>
              var (m, used) := Fit64(budget, ShareWord(c)).value;
              var next := Mul64(budget - used, 1000) / MEAN + m;
              Search64(budget, c, n, k) == if next == c then Some(Split(c - m, m)) else Search64(budget, next, m, k - 1)
  {
    hide Fit64, ShareWord, Mul64;
  }

  /** At most eight rounds of the search. */
  method SolveMainnetContracts(budget: nat) returns (r: Option<Split>)
    requires budget < TWO64
    ensures r == Search64(budget, Mul64(budget, 1000) / MEAN, 0, 8)
    ensures budget <= MAX_BUDGET ==>
      && r == Some(Split(Estimate(budget, 8) - Found(budget, 8), Found(budget, 8)))
      && KeepsBudget(budget, r.value)
  {
    hide Fit64, ShareWord, Mul64, KeepsBudget, Estimate, Found, Search64;
    if budget <= MAX_BUDGET {
      SearchExact(budget, 0);
      SplitKeeps(budget, 8);
    }
    var c, n: nat := Mul64(budget, 1000) / MEAN, 0;
    var k: nat := 8;
    while k > 0
      invariant n <= c && Search64(budget, c, n, k) == Search64(budget, Mul64(budget, 1000) / MEAN, 0, 8)
    {
      SearchStep(budget, c, n, k);
      var fit := FitGiants(budget, c);
      if fit.None? { return None; }
      n := fit.value.0;
      var next := Mul64(budget - fit.value.1, 1000) / MEAN + n;
      if next == c { return Some(Split(c - n, n)); }
      c := next;
      k := k - 1;
    }
    SearchStep(budget, c, n, 0);
    r := Some(Split(c - n, n));
  }

  /** Up to MAX_BUDGET the 64-bit search is the exact one. */
  lemma {:induction false} SearchExact(budget: nat, k: nat)
    requires budget <= MAX_BUDGET && k <= 8
    ensures Found(budget, k) <= Estimate(budget, k)
    ensures Search64(budget, Estimate(budget, k), Found(budget, k), 8 - k)
         == Some(Split(Estimate(budget, 8) - Found(budget, 8), Found(budget, 8)))
    ensures k == 0 ==> Found(budget, k) == 0 && Estimate(budget, k) == Mul64(budget, 1000) / MEAN
    decreases 8 - k
  {
    hide Fit64, ShareWord, Fitting, Giants, Contracts, GiantTotal, SumTo, Estimate, Found, Mul64, Search64,
      KeepsBudget;
    SplitKeeps(budget, k);
    SplitKeeps(budget, 8);
    SearchStep(budget, Estimate(budget, k), Found(budget, k), 8 - k);
    if k == 0 {
      FirstEstimate(budget);
      ZeroFirst(budget);
    }
    if k < 8 {
      RoundExact(budget, k);
      SearchExact(budget, k + 1);
      if Estimate(budget, k + 1) == Estimate(budget, k) {
        Settled(budget, k, 7);
        EstimateOf(budget, k + 1, 8);
      }
    }
  }

  lemma {:induction false} RoundExact(budget: nat, k: nat)
    requires budget <= MAX_BUDGET
    ensures var c, m := Estimate(budget, k), Found(budget, k + 1);
            && Fit64(budget, ShareWord(c)) == Some((m, GiantTotal(m))) && GiantTotal(m) <= budget
            && Mul64(budget - GiantTotal(m), 1000) / MEAN + m == Estimate(budget, k + 1)
  {
    hide Fit64, ShareWord, Fitting, GiantTotal, SumTo, Estimate, Found, Mul64, Share;
    var c := Estimate(budget, k);
    EstimateBound(budget, k);
    ShareWordExact(budget, c);
    Fit64Exact(budget, Share(c));
    NextRound(budget, k);
    EstimateIs(budget, k + 1);
  }

  lemma {:induction false} EstimateIs(budget: nat, k: nat)
    ensures Estimate(budget, k) == (budget - GiantTotal(Found(budget, k))) * 1000 / MEAN + Found(budget, k)
  {
  }

  lemma {:induction false} EstimateOf(budget: nat, j: nat, k: nat)
    requires Found(budget, j) == Found(budget, k)
    ensures Estimate(budget, j) == Estimate(budget, k)
  {
  }

  lemma {:induction false} SplitKeeps(budget: nat, k: nat)
    ensures Found(budget, k) <= Estimate(budget, k)
    ensures KeepsBudget(budget, Split(Estimate(budget, k) - Found(budget, k), Found(budget, k)))
  {
    hide GiantTotal, SumTo, Found;
    EstimateIs(budget, k);
  }

  /** A budget whose product with 1000 wraps below one contract gives an empty split. */
  lemma {:induction false} WrappedSearch(budget: nat)
    requires Mul64(budget, 1000) < MEAN
    ensures Search64(budget, Mul64(budget, 1000) / MEAN, 0, 8) == Some(Split(0, 0))
  {
    hide SumTo, GiantTotal, Mul64, Search64, Fit64, ShareWord;
    NoContracts(budget);
    SearchStep(budget, 0, 0, 8);
  }

  lemma {:induction false} NoContracts(budget: nat)
    ensures ShareWord(0) == 0 && Fit64(budget, 0) == Some((0, 0))
  {
    assert SumTo64(0, 0) == Some(0);
  }

  /** Above 2^64 / 1000 slots the budget itself wraps: on this one the search returns no contract at all. */
  lemma {:induction false} BudgetWraps()
    ensures var budget := 18_446_744_073_709_552;
            && budget < TWO64 && Search64(budget, Mul64(budget, 1000) / MEAN, 0, 8) == Some(Split(0, 0))
            && !KeepsBudget(budget, Split(0, 0))
  {
    assert GiantTotal(0) == 0;
    assert Mul64(18_446_744_073_709_552, 1000) == 384;
    hide Search64;
    WrappedSearch(18_446_744_073_709_552);
  }

  // ----- does the search find the share?

  /** The giants returned are the share of the contracts returned, as far as they fit. */
  predicate MeetsShare(budget: nat) { Found(budget, 8) == Giants(budget, Estimate(budget, 8)) }

  /** n giants leave room for so many contracts that n is their share. */
  predicate SelfConsistent(budget: nat, n: nat) { GiantTotal(n) <= budget && Reply(budget, n) == n }

  lemma {:induction false} ShareMonotone(c: nat, d: nat)
    requires c <= d
    ensures Share(c) <= Share(d)
  {
  }

  lemma {:induction false} GiantsMonotone(budget: nat, c: nat, d: nat)
    requires c <= d
    ensures Giants(budget, c) <= Giants(budget, d)
  {
    hide GiantTotal, SumTo, Share, Fitting;
    ShareMonotone(c, d);
    FittingLargest(budget, Share(d), Giants(budget, c));
  }

  /** The more giants a round finds, the fewer the next one does. */
  lemma {:induction false} ReplyAntitone(budget: nat, n: nat, m: nat)
    requires n <= m && GiantTotal(m) <= budget
    ensures GiantTotal(n) <= budget && Reply(budget, m) <= Reply(budget, n)
  {
    hide GiantTotal, SumTo, Contracts, Giants;
    if n < m {
      ContractsDecrease(budget, n, m);
      GiantsMonotone(budget, Contracts(budget, m), Contracts(budget, n));
    }
  }

  lemma {:induction false} AtMostOneSelfConsistent(budget: nat, n: nat, m: nat)
    requires SelfConsistent(budget, n) && SelfConsistent(budget, m)
    ensures n == m
  {
    hide GiantTotal, SumTo, Reply;
    if n < m { ReplyAntitone(budget, n, m); } else if m < n { ReplyAntitone(budget, m, n); }
  }

  lemma {:induction false} FoundStep(budget: nat, k: nat)
    ensures Found(budget, k + 1) == Reply(budget, Found(budget, k))
  {
  }

  /** Even rounds only rise, odd rounds only fall, and the even ones stay below the odd ones. */
  lemma {:induction false} RoundsNest(budget: nat, k: nat)
    ensures k % 2 == 0 ==> Found(budget, k) <= Found(budget, k + 2) <= Found(budget, k + 1)
    ensures k % 2 == 1 ==> Found(budget, k + 1) <= Found(budget, k + 2) <= Found(budget, k)
    decreases k
  {
    hide GiantTotal, SumTo, Reply;
    FoundStep(budget, k);
    FoundStep(budget, k + 1);
    if k > 0 {
      RoundsNest(budget, k - 1);
      FoundStep(budget, k - 1);
      var a, b, c := Found(budget, k - 1), Found(budget, k), Found(budget, k + 1);
      if a <= c { ReplyAntitone(budget, a, c); } else { ReplyAntitone(budget, c, a); }
      if b <= c { ReplyAntitone(budget, b, c); } else { ReplyAntitone(budget, c, b); }
    } else {
      ReplyAntitone(budget, 0, Found(budget, 1));
    }
  }

  /** The rounds enclose every self-consistent number. */
  lemma {:induction false} RoundsEnclose(budget: nat, n: nat, k: nat)
    requires SelfConsistent(budget, n)
    ensures if k % 2 == 0 then Found(budget, k) <= n else n <= Found(budget, k)
    decreases k
  {
    hide GiantTotal, SumTo, Reply;
    if k > 0 {
      RoundsEnclose(budget, n, k - 1);
      FoundStep(budget, k - 1);
      var b := Found(budget, k - 1);
      if b <= n { ReplyAntitone(budget, b, n); } else { ReplyAntitone(budget, n, b); }
    }
  }

  /** When n is self-consistent, on budget and n alone: n giants fit, their contracts have a share of at least
  n, and either of less than n + 1 or one giant more would not fit. */
  lemma {:induction false} SelfConsistentIff(budget: nat, n: nat)
    ensures SelfConsistent(budget, n) <==>
              && GiantTotal(n) <= budget
              && ShareAtLeast((budget - GiantTotal(n)) * 1000 / MEAN + n, n)
              && (ShareAtLeast((budget - GiantTotal(n)) * 1000 / MEAN + n, n + 1) ==> GiantTotal(n + 1) > budget)
  {
    hide GiantTotal, SumTo, Share, Fitting;
    if GiantTotal(n) <= budget {
      var c := (budget - GiantTotal(n)) * 1000 / MEAN + n;
      ShareAtLeastIs(c, n);
      ShareAtLeastIs(c, n + 1);
      if Share(c) >= n { FittingLargest(budget, Share(c), n); }
      if Share(c) >= n + 1 { FittingLargest(budget, Share(c), n + 1); }
    }
  }

  predicate ShareAtLeast(c: nat, n: nat) {
    2 * GIANT_ACCOUNTS * c + STORAGE_ACCOUNTS >= 2 * STORAGE_ACCOUNTS * n
  }

  lemma {:induction false} ShareAtLeastIs(c: nat, n: nat)
    ensures ShareAtLeast(c, n) <==> Share(c) >= n
  {
    DivLess(2 * c * GIANT_ACCOUNTS + STORAGE_ACCOUNTS, 2 * STORAGE_ACCOUNTS, n);
  }

  /** m is at most the reply to n: m giants fit, and the contracts beside n giants have a share of m. */
  predicate RungUp(budget: nat, n: nat, m: nat) {
    && GiantTotal(n) <= budget && GiantTotal(m) <= budget
    && ShareAtLeast((budget - GiantTotal(n)) * 1000 / MEAN + n, m)
  }

  /** m is at least the reply to n: m giants fit, and a share of m + 1 would not fit or is not reached. */
  predicate RungDown(budget: nat, n: nat, m: nat) {
    && GiantTotal(n) <= budget && GiantTotal(m) <= budget
    && (ShareAtLeast((budget - GiantTotal(n)) * 1000 / MEAN + n, m + 1) ==> GiantTotal(m + 1) > budget)
  }

  lemma {:induction false} RungUpIs(budget: nat, n: nat, m: nat)
    requires GiantTotal(n) <= budget
    ensures RungUp(budget, n, m) <==> m <= Reply(budget, n)
  {
    hide GiantTotal, SumTo, Share, Fitting;
    var c := (budget - GiantTotal(n)) * 1000 / MEAN + n;
    ShareAtLeastIs(c, m);
    if Share(c) >= m { FittingLargest(budget, Share(c), m); }
  }

  lemma {:induction false} RungDownIs(budget: nat, n: nat, m: nat)
    requires GiantTotal(n) <= budget && GiantTotal(m) <= budget
    ensures RungDown(budget, n, m) <==> m >= Reply(budget, n)
  {
    hide GiantTotal, SumTo, Share, Reply;
    RungUpIs(budget, n, m + 1);
  }

  /** Numbers that keep the rounds apart: from none on, each odd one can be reached from the one before, each
  even one cannot be exceeded, and the last two are still apart after round r. */
  predicate Ladder(budget: nat, r: nat, l: seq<nat>) {
    && |l| == r + 2 && l[0] == 0 && l[r] < l[r + 1]
    && forall k :: 1 <= k <= r + 1 ==>
         if k % 2 == 1 then RungUp(budget, l[k - 1], l[k]) else RungDown(budget, l[k - 1], l[k])
  }

  lemma {:induction false} LadderBounds(budget: nat, r: nat, l: seq<nat>, k: nat)
    requires Ladder(budget, r, l) && k <= r + 1
    ensures if k % 2 == 0 then Found(budget, k) <= l[k] else l[k] <= Found(budget, k)
    decreases k
  {
    hide GiantTotal, SumTo, Reply, Found;
    ZeroFirst(budget);
    if k > 0 {
      LadderBounds(budget, r, l, k - 1);
      FoundStep(budget, k - 1);
      var f, p := Found(budget, k - 1), l[k - 1];
      if k % 2 == 1 {
        assert RungUp(budget, p, l[k]);
        RungUpIs(budget, p, l[k]);
        ReplyAntitone(budget, f, p);
      } else {
        assert RungDown(budget, p, l[k]);
        RungDownIs(budget, p, l[k]);
        ReplyAntitone(budget, p, f);
      }
    }
  }

  lemma {:induction false} RoundsAreLadder(budget: nat, r: nat) returns (l: seq<nat>)
    requires r % 2 == 0 && Found(budget, r) != Found(budget, r + 1)
    ensures Ladder(budget, r, l)
  {
    hide GiantTotal, SumTo, Reply, RungUp, RungDown, Found;
    l := seq(r + 2, k requires 0 <= k < r + 2 => Found(budget, k));
    ZeroFirst(budget);
    RoundsNest(budget, r);
    forall k | 1 <= k <= r + 1
      ensures if k % 2 == 1 then RungUp(budget, l[k - 1], l[k]) else RungDown(budget, l[k - 1], l[k])
    {
      FoundStep(budget, k - 1);
      assert l[k - 1] == Found(budget, k - 1) && l[k] == Found(budget, k);
      if k % 2 == 1 { RungUpIs(budget, l[k - 1], l[k]); } else { RungDownIs(budget, l[k - 1], l[k]); }
    }
  }

  /** After an even number of rounds the search has not settled exactly when a ladder of that length exists. */
  lemma {:induction false} LadderIff(budget: nat, r: nat)
    requires r % 2 == 0
    ensures Found(budget, r) != Found(budget, r + 1) <==> exists l :: Ladder(budget, r, l)
  {
    hide GiantTotal, SumTo, Reply, Found, Ladder;
    if Found(budget, r) != Found(budget, r + 1) {
      var l := RoundsAreLadder(budget, r);
    }
    if l :| Ladder(budget, r, l) {
      LadderBounds(budget, r, l, r);
      LadderBounds(budget, r, l, r + 1);
      LadderEnds(budget, r, l);
    }
  }

  lemma {:induction false} LadderEnds(budget: nat, r: nat, l: seq<nat>)
    requires Ladder(budget, r, l)
    ensures |l| == r + 2 && l[r] < l[r + 1]
  {
    hide RungUp, RungDown;
  }

  /** The documented share is missed exactly when the budget admits a ladder of ten numbers. Without a
  self-consistent number it is always missed. */
  lemma {:induction false} ShareIff(budget: nat)
    ensures !MeetsShare(budget) <==> exists l :: Ladder(budget, 8, l)
    ensures (forall n: nat :: !SelfConsistent(budget, n)) ==> !MeetsShare(budget)
  {
    hide GiantTotal, SumTo, Giants, Contracts, Ladder, Found, Estimate, Reply;
    NextRound(budget, 8);
    FoundStep(budget, 8);
    LadderIff(budget, 8);
    if MeetsShare(budget) { assert SelfConsistent(budget, Found(budget, 8)); }
  }

  /** lo and hi trap the search: from lo it goes to hi or beyond, and from there back to lo or below. */
  predicate Traps(budget: nat, lo: nat, hi: nat) {
    lo < hi && GiantTotal(hi) <= budget && GiantTotal(lo) <= budget && hi <= Reply(budget, lo) &&
        Reply(budget, hi) <= lo
  }

  lemma {:induction false} TrappedForEver(budget: nat, lo: nat, hi: nat, k: nat)
    requires Traps(budget, lo, hi)
    ensures if k % 2 == 0 then Found(budget, k) <= lo else hi <= Found(budget, k)
    decreases k
  {
    hide GiantTotal, SumTo, Reply;
    if k > 0 {
      TrappedForEver(budget, lo, hi, k - 1);
      FoundStep(budget, k - 1);
      var b := Found(budget, k - 1);
      if b <= lo { ReplyAntitone(budget, b, lo); } else { ReplyAntitone(budget, hi, b); }
    }
  }

  /** Two rounds apart, the search gains a giant or has come to rest in a cycle of two. */
  lemma {:induction false} GainsOrCycles(budget: nat, j: nat)
    ensures Found(budget, 2 * j) >= j || exists i: nat :: i < j && Found(budget, 2 * i) == Found(budget, 2 * i + 2)
    decreases j
  {
    hide GiantTotal, SumTo, Reply;
    if j > 0 {
      GainsOrCycles(budget, j - 1);
      RoundsNest(budget, 2 * (j - 1));
      assert 2 * (j - 1) + 2 == 2 * j;
      if Found(budget, 2 * (j - 1)) == Found(budget, 2 * (j - 1) + 2) { assert j - 1 < j; }
    }
  }

  /** The search has settled at round k. */
  predicate SettledAt(budget: nat, k: nat) { Found(budget, k) == Found(budget, k + 1) }

  /** With enough rounds the search settles exactly when no two numbers trap it. */
  lemma {:induction false} SettlesIff(budget: nat)
    ensures (exists k: nat :: SettledAt(budget, k)) <==> forall lo: nat, hi: nat :: !Traps(budget, lo, hi)
  {
    hide GiantTotal, SumTo, Reply, Found;
    if k: nat :| SettledAt(budget, k) {
      forall lo: nat, hi: nat ensures !Traps(budget, lo, hi) {
        if Traps(budget, lo, hi) {
          TrappedForEver(budget, lo, hi, k);
          TrappedForEver(budget, lo, hi, k + 1);
        }
      }
    } else {
      var k := RestsInCycle(budget);
      assert !SettledAt(budget, k);
      assert Traps(budget, Found(budget, k), Found(budget, k + 1));
    }
  }

  /** The share is missed in one of two ways: two numbers trap the search, so that it never settles, or it
  settles only after the eighth round. */
  lemma {:induction false} MissedWays(budget: nat)
    ensures !MeetsShare(budget) <==>
              || (exists lo: nat, hi: nat :: Traps(budget, lo, hi))
              || (!SettledAt(budget, 8) && exists k: nat :: k > 8 && SettledAt(budget, k))
  {
    hide GiantTotal, SumTo, Reply, Found, Giants, Estimate, Traps;
    NextRound(budget, 8);
    assert MeetsShare(budget) <==> SettledAt(budget, 8);
    SettlesIff(budget);
    if !SettledAt(budget, 8) {
      forall k: nat | k < 8 ensures !SettledAt(budget, k) {
        if SettledAt(budget, k) { StaysSettled(budget, k, 8); }
      }
    }
  }

  lemma {:induction false} StaysSettled(budget: nat, j: nat, k: nat)
    requires j <= k && SettledAt(budget, j)
    ensures SettledAt(budget, k)
    decreases k
  {
    hide GiantTotal, SumTo, Reply, Found;
    if j < k {
      StaysSettled(budget, j, k - 1);
      FoundStep(budget, k - 1);
      FoundStep(budget, k);
    }
  }

  lemma {:induction false} RestsInCycle(budget: nat) returns (k: nat)
    ensures Found(budget, k) <= Found(budget, k + 1)
    ensures Found(budget, k + 1) == Reply(budget, Found(budget, k))
    ensures Reply(budget, Found(budget, k + 1)) == Found(budget, k)
  {
    hide GiantTotal, SumTo, Reply, Found;
    var top := Found(budget, 1) + 1;
    GainsOrCycles(budget, top);
    StaysBelowFirst(budget, top);
    var i: nat :| i < top && Found(budget, 2 * i) == Found(budget, 2 * i + 2);
    k := 2 * i;
    RoundsNest(budget, k);
    FoundStep(budget, k);
    FoundStep(budget, k + 1);
  }

  lemma {:induction false} StaysBelowFirst(budget: nat, j: nat)
    ensures Found(budget, 2 * j) <= Found(budget, 1)
    decreases j
  {
    hide GiantTotal, SumTo, Reply, Found;
    if j == 0 {
      RoundsNest(budget, 0);
    } else {
      var b := Found(budget, 2 * j - 1);
      FoundStep(budget, 2 * j - 1);
      FoundStep(budget, 0);
      assert Found(budget, 0) <= b by { ZeroFirst(budget); }
      ReplyAntitone(budget, Found(budget, 0), b);
    }
  }

  lemma {:induction false} ZeroFirst(budget: nat)
    ensures Found(budget, 0) == 0
  {
  }

  // ----- small budgets

  lemma {:induction false} OneGiant()
    ensures GiantTotal(0) == 0 && GiantTotal(1) == GIANT_MIN_SLOTS
  {
    assert GiantSlots(1, 1) == GIANT_MIN_SLOTS;
    assert SumTo(1, 1) == SumTo(1, 0) + GiantSlots(1, 1);
  }

  lemma {:induction false} SmallShares(c: nat)
    ensures Share(c) == 0 <==> c <= 109_419
    ensures Share(c) <= 1 <==> c <= 328_258
  {
  }

  lemma {:induction false} SmallQuotients(b: nat)
    ensures b * 1000 / MEAN <= 109_419 <==> b <= 4_084_320
    ensures b * 1000 / MEAN + 1 <= 109_419 <==> b <= 4_084_283
    ensures b * 1000 / MEAN <= 328_258 <==> b <= 12_252_923
  {
  }

  lemma {:induction false} SmallReplies(budget: nat)
    requires budget <= 12_252_923
    ensures Reply(budget, 0) == if budget >= 4_084_321 then 1 else 0
    ensures budget >= 4_084_321 ==>
              GiantTotal(1) <= budget && Reply(budget, 1) == if budget >= 5_084_284 then 1 else 0
  {
    hide GiantTotal, SumTo, Fitting, Share;
    OneGiant();
    CountDown(budget, 1);
    CountDown(budget, 0);
    SmallQuotients(budget);
    SmallShares(budget * 1000 / MEAN);
    if budget >= 4_084_321 {
      SmallQuotients(budget - GIANT_MIN_SLOTS);
      SmallShares((budget - GIANT_MIN_SLOTS) * 1000 / MEAN + 1);
    }
  }

  /** For every budget whose drawn-only share is at most one giant: the share is missed exactly between
  4,084,321 and 5,084,283 slots, where it would be one giant and the search returns none. */
  lemma {:induction false} SmallBudgets(budget: nat)
    requires budget <= 12_252_923
    ensures MeetsShare(budget) <==> !(4_084_321 <= budget <= 5_084_283)
    ensures 4_084_321 <= budget <= 5_084_283 ==> Found(budget, 8) == 0 && Giants(budget, Estimate(budget, 8)) == 1
  {
    hide GiantTotal, SumTo, Reply, Giants, Found, Estimate;
    SmallReplies(budget);
    NextRound(budget, 8);
    SmallRounds(budget, 8);
    SmallRounds(budget, 9);
  }

  lemma {:induction false} SmallRounds(budget: nat, k: nat)
    requires budget <= 12_252_923
    ensures budget < 4_084_321 ==> Found(budget, k) == 0
    ensures 4_084_321 <= budget <= 5_084_283 ==> Found(budget, k) == k % 2
    ensures budget > 5_084_283 ==> Found(budget, k) == if k == 0 then 0 else 1
    decreases k
  {
    hide GiantTotal, SumTo, Reply;
    SmallReplies(budget);
    if k > 0 { SmallRounds(budget, k - 1); }
  }

  lemma {:induction false} SmallBudgetsAre(budget: nat)
    ensures Share(budget * 1000 / MEAN) <= 1 <==> budget <= 12_252_923
  {
    hide Share;
    SmallQuotients(budget);
    SmallShares(budget * 1000 / MEAN);
  }

  // ----- budgets on which the search misses the share

  lemma {:induction false} ReplyIs(budget: nat, n: nat, total: nat, r: nat)
    requires GiantTotal(n) == total <= budget && GiantTotal(r) <= budget
    requires Share((budget - total) * 1000 / MEAN + n) == r
    ensures Reply(budget, n) == r
  {
    hide GiantTotal, SumTo, Fitting, Share;
    CountDown(budget, r);
  }

  lemma {:induction false} TrapReplies(budget: nat, n: nat)
    requires budget == 250_200_000 && n == 22
    ensures GiantTotal(n - 1) <= budget && GiantTotal(n) <= budget && GiantTotal(n + 1) <= budget
    ensures Reply(budget, n - 1) == n + 1 && Reply(budget, n) == n && Reply(budget, n + 1) == n - 1
  {
    hide GiantTotal, SumTo, Fitting, Reply;
    Total21(n - 1);
    Total22(n);
    Total23(n + 1);
    ReplyIs(budget, n - 1, GiantTotal(n - 1), n + 1);
    ReplyIs(budget, n, GiantTotal(n), n);
    ReplyIs(budget, n + 1, GiantTotal(n + 1), n - 1);
  }

  /** 22 giants are self-consistent for this budget, but 21 and 23 trap the search: no number of rounds finds
  22, and eight rounds return at most 21. */
  lemma {:induction false} TrappedBudget(k: nat)
    ensures SelfConsistent(250_200_000, 22) && Traps(250_200_000, 21, 23)
    ensures Found(250_200_000, k) != 22 && Found(250_200_000, 8) <= 21 && !MeetsShare(250_200_000)
  {
    hide GiantTotal, SumTo, Reply, Found, Giants, Estimate;
    TrapReplies(250_200_000, 22);
    TrappedForEver(250_200_000, 21, 23, k);
    TrappedForEver(250_200_000, 21, 23, 8);
    TrappedForEver(250_200_000, 21, 23, 9);
    NextRound(250_200_000, 8);
  }

  /** One round, from the total of the giants found before. */
  lemma {:induction false} NextFound(budget: nat, k: nat, n: nat, total: nat, r: nat)
    requires budget == 446_966_000 && r <= 55 && Found(budget, k) == n && GiantTotal(n) == total <= budget
    requires Share((budget - total) * 1000 / MEAN + n) == r
    ensures Found(budget, k + 1) == r
  {
    hide GiantTotal, SumTo, Reply, Found, Share;
    Total55(55);
    TotalGrows(r, 55);
    ReplyIs(budget, n, total, r);
    FoundStep(budget, k);
  }

  lemma {:induction false} LateStart(budget: nat)
    requires budget == 446_966_000
    ensures Found(budget, 5) == 40
  {
    hide GiantTotal, SumTo, Reply, Found;
    ZeroFirst(budget);
    OneGiant();
    NextFound(budget, 0, 0, 0, 55);
    Total55(55);
    NextFound(budget, 1, 55, 222_507_497, 27);
    Total27(27);
    NextFound(budget, 2, 27, 91_455_457, 44);
    Total44(44);
    NextFound(budget, 3, 44, 168_800_782, 34);
    Total34(34);
    NextFound(budget, 4, 34, 122_318_944, 40);
  }

  lemma {:induction false} LateEnd(budget: nat)
    requires budget == 446_966_000
    ensures Found(budget, 8) == 37 && Found(budget, 9) == 38 && Found(budget, 10) == 38
  {
    hide GiantTotal, SumTo, Reply, Found;
    LateStart(budget);
    Total40(40);
    NextFound(budget, 5, 40, 149_908_957, 36);
    Total36(36);
    NextFound(budget, 6, 36, 131_408_992, 39);
    Total39(39);
    NextFound(budget, 7, 39, 145_245_710, 37);
    Total37(37);
    NextFound(budget, 8, 37, 135_995_065, 38);
    Total38(38);
    NextFound(budget, 9, 38, 140_607_530, 38);
  }

  /** A budget on which the search settles late: 38 giants are self-consistent and nothing traps the search, but
  it reaches them only in the ninth round and returns 37. */
  lemma {:induction false} LateBudget()
    ensures SelfConsistent(446_966_000, 38) && SettledAt(446_966_000, 9)
    ensures forall lo: nat, hi: nat :: !Traps(446_966_000, lo, hi)
    ensures Found(446_966_000, 8) == 37 && !MeetsShare(446_966_000)
  {
    hide GiantTotal, SumTo, Reply, Found, Giants, Estimate, Traps;
    LateEnd(446_966_000);
    NextRound(446_966_000, 8);
    FoundStep(446_966_000, 9);
    assert SettledAt(446_966_000, 9);
    SettlesIff(446_966_000);
  }
}
