/** The writer stage of the account pipeline with its heap: one arrival at the real heap is a sequence of steps of
the pipeline. */
module AccountWriter {
  import opened Wrappers
  import opened AccountHeap
  import opened AccountPipeline

  /** The result of account k. */
  function ResultOf(c: Config, k: nat): AccountResult
    requires k < |c.accounts|
  {
    AccountResult(k, c.accounts[k].fails)
  }

  /** The results of the buffered accounts. */
  ghost function BufferedResults(c: Config, s: State): set<AccountResult>
    requires |s.place| == |c.accounts|
  {
    set k: nat | k < |s.place| && s.place[k] == Buffered :: ResultOf(c, k)
  }

  /** The heap holds the results of exactly the buffered accounts, each once. */
  ghost predicate HeapHolds(c: Config, s: State, h: seq<AccountResult>) {
    |s.place| == |c.accounts| && HeapOrdered(h) && multiset(h) == multiset(BufferedResults(c, s))
  }

  lemma {:induction false} HeldIff(c: Config, s: State, h: seq<AccountResult>, k: nat)
    requires HeapHolds(c, s, h)
    ensures IsAt(s, k, Buffered) <==> exists i :: 0 <= i < |h| && h[i].seqNum == k
    ensures IsAt(s, k, Buffered) ==> ResultOf(c, k) in h
  {
    if IsAt(s, k, Buffered) {
      assert ResultOf(c, k) in multiset(BufferedResults(c, s));
      assert ResultOf(c, k) in multiset(h);
      var i :| 0 <= i < |h| && h[i] == ResultOf(c, k);
    }
    if i :| 0 <= i < |h| && h[i].seqNum == k {
      assert h[i] in multiset(h);
      assert h[i] in BufferedResults(c, s);
    }
  }

  /** The test of the drain loop: the top of the heap is the next number exactly when the pipeline says so. */
  lemma {:induction false} TopIff(c: Config, s: State, h: seq<AccountResult>)
    requires HeapHolds(c, s, h) && Ordered(c, s)
    ensures h != [] && h[0].seqNum == s.nextSeq <==> TopIsNext(s)
    ensures TopIsNext(s) ==> h[0] == ResultOf(c, s.nextSeq)
  {
    hide HeapHolds, Ordered, TopIsNext;
    NotTop(c, s);
    HeldIff(c, s, h, s.nextSeq);
    if h != [] {
      assert h[0].seqNum == h[0].seqNum;
      HeldIff(c, s, h, h[0].seqNum);
      FirstIsResult(c, s, h);
    }
    if IsAt(s, s.nextSeq, Buffered) {
      var i :| 0 <= i < |h| && h[i].seqNum == s.nextSeq;
      HeapIsOrdered(c, s, h);
      TopIsLeast(h, i);
      NothingBelow(c, s, h[0].seqNum);
    }
  }

  lemma {:induction false} HeapIsOrdered(c: Config, s: State, h: seq<AccountResult>)
    requires HeapHolds(c, s, h)
    ensures HeapOrdered(h)
  {
  }

  lemma {:induction false} FirstIsResult(c: Config, s: State, h: seq<AccountResult>)
    requires HeapHolds(c, s, h) && h != []
    ensures h[0].seqNum < |c.accounts| && h[0] == ResultOf(c, h[0].seqNum)
  {
    assert h[0] in multiset(h);
    assert h[0] in BufferedResults(c, s);
  }

  lemma {:induction false} NothingBelow(c: Config, s: State, k: nat)
    requires Ordered(c, s) && IsAt(s, k, Buffered)
    ensures s.nextSeq <= k
  {
  }

  /** Moving account k into or out of the heap. */
  lemma {:induction false} BufferedChange(c: Config, s: State, s': State, k: nat)
    requires |s.place| == |c.accounts| == |s'.place| && k < |s.place| && s'.place == s.place[k := s'.place[k]]
    ensures s.place[k] != Buffered && s'.place[k] == Buffered ==>
              multiset(BufferedResults(c, s')) == multiset(BufferedResults(c, s)) + multiset{ResultOf(c, k)}
    ensures s.place[k] == Buffered && s'.place[k] != Buffered ==>
              multiset(BufferedResults(c, s)) == multiset(BufferedResults(c, s')) + multiset{ResultOf(c, k)}
    ensures s.place[k] != Buffered && s'.place[k] != Buffered ==> BufferedResults(c, s') == BufferedResults(c, s)
  {
    var r := ResultOf(c, k);
    var a, b := BufferedResults(c, s), BufferedResults(c, s');
    forall j: nat | j < |s.place| && j != k ensures s'.place[j] == s.place[j] {}
    if s.place[k] != Buffered && s'.place[k] == Buffered {
      assert b == a + {r} && r !in a;
    }
    if s.place[k] == Buffered && s'.place[k] != Buffered {
      assert a == b + {r} && r !in b;
    }
    if s.place[k] != Buffered && s'.place[k] != Buffered {
      assert a == b;
    }
  }

  /** The state after a run that starts in s, if every step of it is enabled where it is taken. */
  ghost function From(c: Config, s: State, steps: seq<Step>): Option<State> {
    if steps == [] then Some(s) else
      var p := From(c, s, steps[..|steps| - 1]);
      if p.Some? && Enabled(c, p.value, steps[|steps| - 1]) then Some(Apply(c, p.value, steps[|steps| - 1])) else None
  }

  lemma {:induction false} FromSnoc(c: Config, s: State, steps: seq<Step>, t: State, a: Step)
    requires From(c, s, steps) == Some(t) && Enabled(c, t, a)
    ensures From(c, s, steps + [a]) == Some(Apply(c, t, a))
  {
    hide Enabled, Apply;
    assert (steps + [a])[..|steps|] == steps;
  }

  /** What follows a run of the pipeline is part of a run of the pipeline. */
  lemma {:induction false} Continues(c: Config, before: seq<Step>, s: State, steps: seq<Step>)
    requires After(c, before) == Some(s) && From(c, s, steps).Some?
    ensures After(c, before + steps) == From(c, s, steps)
    decreases |steps|
  {
    hide Enabled, Apply;
    if steps == [] {
      assert before + steps == before;
    } else {
      Continues(c, before, s, steps[..|steps| - 1]);
      assert (before + steps)[..|before + steps| - 1] == before + steps[..|steps| - 1];
    }
  }

  /** The writer's steps for one arrival: receive, apply some, then wait or fail. */
  ghost predicate IsTurn(steps: seq<Step>, k: nat, applies: nat) {
    && |steps| == applies + 2 && steps[0] == WriterReceive(k)
    && (forall i :: 0 < i <= applies ==> steps[i] == WriterApply)
    && (steps[applies + 1] == WriterWait || steps[applies + 1] == WriterFail)
  }

  /** A heap that holds the buffered accounts still does after every step that does not touch it: the steps of
  reader and workers, and the arrivals a failed writer throws away. */
  lemma {:induction false} OthersKeepHeap(c: Config, s: State, a: Step, h: seq<AccountResult>)
    requires Inv(c, s) && Enabled(c, s, a) && HeapHolds(c, s, h)
    requires !a.WriterApply? && !a.WriterFail? && (a.WriterReceive? ==> s.writerFailed)
    ensures HeapHolds(c, Apply(c, s, a), h)
  {
    var s' := Apply(c, s, a);
    assert a.WriterReceive? ==> s'.place[a.k] == Dropped && Moved(c, s, a) == a.k;
    MovesOne(c, s, a);
    MovedFrom(c, s, a);
    var k := Moved(c, s, a);
    hide Enabled, Apply, Moved, Inv;
    if k < |s.place| {
      assert s'.place == s.place[k := s'.place[k]];
      BufferedChange(c, s, s', k);
    } else {
      assert s'.place == s.place;
    }
  }

  lemma {:induction false} StartsEmpty(c: Config)
    ensures HeapHolds(c, Init(c), [])
  {
    assert BufferedResults(c, Init(c)) == {};
  }

  // ----- the single steps

  lemma {:induction false} FromNothing(c: Config, s: State)
    ensures From(c, s, []) == Some(s)
  {
  }

  lemma {:induction false} ReceiveStep(c: Config, s: State, k: nat)
    requires Inv(c, s) && !s.returned && !s.draining && !s.writerFailed && IsAt(s, k, Ready)
    ensures Enabled(c, s, WriterReceive(k)) && k < |c.accounts| == |s.place|
    ensures var t := Apply(c, s, WriterReceive(k));
            Inv(c, t) && t == s.(place := s.place[k := Buffered], draining := true)
  {
    hide Inv, Ordered, Paired, Flags;
    StepKeepsInv(c, s, WriterReceive(k));
    SizesAgree(c, s);
  }

  lemma {:induction false} SizesAgree(c: Config, s: State)
    requires Inv(c, s)
    ensures |s.place| == |c.accounts| && Ordered(c, s)
  {
  }

  lemma {:induction false} ApplyStep(c: Config, s: State)
    requires Inv(c, s) && s.draining && TopIsNext(s) && s.nextSeq < |c.accounts| && !c.accounts[s.nextSeq].fails
    ensures Enabled(c, s, WriterApply) && s.nextSeq < |s.place| && s.place[s.nextSeq] == Buffered
    ensures var t := Apply(c, s, WriterApply);
            && Inv(c, t) && t.place == s.place[s.nextSeq := Applied] && t.nextSeq == s.nextSeq + 1
            && t.draining && t.writerFailed == s.writerFailed
  {
    hide Inv, Ordered, Paired, Flags;
    StepKeepsInv(c, s, WriterApply);
  }

  lemma {:induction false} FailStep(c: Config, s: State)
    requires Inv(c, s) && s.draining && TopIsNext(s) && s.nextSeq < |c.accounts| && c.accounts[s.nextSeq].fails
    ensures Enabled(c, s, WriterFail) && s.nextSeq < |s.place| && s.place[s.nextSeq] == Buffered
    ensures var t := Apply(c, s, WriterFail);
            t.place == s.place[s.nextSeq := Dropped] && t.nextSeq == s.nextSeq && !t.draining && t.writerFailed
  {
    hide Inv, Ordered, Paired, Flags;
  }

  lemma {:induction false} WaitStep(c: Config, s: State)
    requires s.draining && !TopIsNext(s)
    ensures Enabled(c, s, WriterWait) && Apply(c, s, WriterWait) == s.(draining := false)
  {
  }

  /** A push keeps heap and pipeline in step. */
  lemma {:induction false} Pushed(c: Config, s: State, s': State, k: nat, h: seq<AccountResult>, h': seq<AccountResult>)
    requires HeapHolds(c, s, h) && IsAt(s, k, Ready) && s'.place == s.place[k := Buffered] && k < |c.accounts|
    requires HeapOrdered(h') && multiset(h') == multiset(h) + multiset{ResultOf(c, k)}
    ensures HeapHolds(c, s', h')
  {
    BufferedChange(c, s, s', k);
  }

  /** So does a pop. */
  lemma {:induction false} Popped(c: Config, s: State, s': State, h: seq<AccountResult>, h': seq<AccountResult>)
    requires HeapHolds(c, s, h) && IsAt(s, s.nextSeq, Buffered) && s.nextSeq < |c.accounts|
    requires |s'.place| == |s.place| && s'.place == s.place[s.nextSeq := s'.place[s.nextSeq]]
    requires s'.place[s.nextSeq] != Buffered
    requires HeapOrdered(h') && multiset(h') + multiset{ResultOf(c, s.nextSeq)} == multiset(h)
    ensures HeapHolds(c, s', h')
  {
    BufferedChange(c, s, s', s.nextSeq);
    var a, b, r := multiset(BufferedResults(c, s)), multiset(BufferedResults(c, s')), multiset{ResultOf(c, s.nextSeq)};
    assert multiset(h') + r == b + r;
    assert multiset(h') == (multiset(h') + r) - r == (b + r) - r == b;
  }

  lemma {:induction false} SameHeap(c: Config, s: State, s': State, h: seq<AccountResult>)
    requires HeapHolds(c, s, h) && s'.place == s.place
    ensures HeapHolds(c, s', h)
  {
  }

  /** The test of the drain loop. */
  method CheckTop(c: Config, h: ResultHeap, next: nat, ghost s: State) returns (isTop: bool)
    requires Inv(c, s) && HeapHolds(c, s, h.items) && s.nextSeq == next
    ensures isTop <==> TopIsNext(s)
    ensures isTop ==> h.items != [] && next < |c.accounts| && h.items[0] == ResultOf(c, next)
  {
    hide Inv, HeapHolds, TopIsNext, Ordered;
    SizesAgree(c, s);
    TopIff(c, s, h.items);
    isTop := |h.items| > 0 && h.items[0].seqNum == next;
    if isTop { FirstIsResult(c, s, h.items); }
  }

  // ----- every interleaving

  predicate HeapTop(h: seq<AccountResult>, next: nat) { h != [] && h[0].seqNum == next }

  /** Whether a step can be taken, as the program decides it: the writer looks at its heap. */
  ghost predicate HeapEnabled(c: Config, s: State, h: seq<AccountResult>, a: Step) {
    match a
    case WriterApply => s.draining && HeapTop(h, s.nextSeq) && !h[0].fails
    case WriterFail => s.draining && HeapTop(h, s.nextSeq) && h[0].fails
    case WriterWait => s.draining && !HeapTop(h, s.nextSeq)
    case _ => Enabled(c, s, a)
  }

  /** What a step makes of the heap: an arrival is pushed, applying and failing pop the top. */
  ghost predicate HeapMoves(c: Config, s: State, a: Step, h: seq<AccountResult>, h': seq<AccountResult>) {
    match a
    case WriterReceive(k) =>
      if s.writerFailed then h' == h
      else k < |c.accounts| && HeapOrdered(h') && multiset(h') == multiset(h) + multiset{ResultOf(c, k)}
    case WriterApply => h != [] && HeapOrdered(h') && multiset(h') + multiset{h[0]} == multiset(h)
    case WriterFail => h != [] && HeapOrdered(h') && multiset(h') + multiset{h[0]} == multiset(h)
    case _ => h' == h
  }

  /** The heap and the pipeline allow the same steps. */
  lemma {:induction false} SameGuards(c: Config, s: State, h: seq<AccountResult>, a: Step)
    requires Inv(c, s) && HeapHolds(c, s, h)
    ensures HeapEnabled(c, s, h, a) <==> Enabled(c, s, a)
  {
    hide Inv, HeapHolds, TopIsNext, Ordered, ReaderEnabled, WorkerEnabled;
    SizesAgree(c, s);
    TopIff(c, s, h);
    if h != [] { FirstIsResult(c, s, h); }
  }

  /** Whatever the step, the heap holds the buffered accounts afterwards. */
  lemma {:induction false} StepKeepsHeap(c: Config, s: State, a: Step, h: seq<AccountResult>, h': seq<AccountResult>)
    requires Inv(c, s) && HeapHolds(c, s, h) && Enabled(c, s, a) && HeapMoves(c, s, a, h, h')
    ensures HeapHolds(c, Apply(c, s, a), h')
  {
    hide Inv, HeapHolds, Enabled, Apply;
    if a.WriterReceive? && !s.writerFailed {
      ReceiveKeepsHeap(c, s, a.k, h, h');
    } else if a.WriterApply? || a.WriterFail? {
      PopKeepsHeap(c, s, a, h, h');
    } else {
      OthersKeepHeap(c, s, a, h);
    }
  }

  lemma {:induction false} ReceiveKeepsHeap(
    c: Config, s: State, k: nat, h: seq<AccountResult>, h': seq<AccountResult>)
    requires Inv(c, s) && HeapHolds(c, s, h) && Enabled(c, s, WriterReceive(k)) && !s.writerFailed
    requires HeapMoves(c, s, WriterReceive(k), h, h')
    ensures HeapHolds(c, Apply(c, s, WriterReceive(k)), h')
  {
    hide Inv, HeapHolds;
    ReceiveStep(c, s, k);
    Pushed(c, s, Apply(c, s, WriterReceive(k)), k, h, h');
  }

  lemma {:induction false} PopKeepsHeap(c: Config, s: State, a: Step, h: seq<AccountResult>, h': seq<AccountResult>)
    requires a == WriterApply || a == WriterFail
    requires Inv(c, s) && HeapHolds(c, s, h) && Enabled(c, s, a) && HeapMoves(c, s, a, h, h')
    ensures HeapHolds(c, Apply(c, s, a), h')
  {
    hide Inv, HeapHolds, Ordered;
    SizesAgree(c, s);
    TopIff(c, s, h);
    if a == WriterApply { ApplyStep(c, s); } else { FailStep(c, s); }
    Popped(c, s, Apply(c, s, a), h, h');
  }

  /** A run of the program: hs[i] is the heap before step i. The steps of reader and workers may come between
  any two operations of the writer. */
  ghost predicate HeapRun(c: Config, steps: seq<Step>, hs: seq<seq<AccountResult>>) {
    && |hs| == |steps| + 1 && hs[0] == []
    && forall i :: 0 <= i < |steps| ==>
         && After(c, steps[..i]).Some?
         && HeapEnabled(c, After(c, steps[..i]).value, hs[i], steps[i])
         && HeapMoves(c, After(c, steps[..i]).value, steps[i], hs[i], hs[i + 1])
  }

  lemma {:induction false} HeapRunPrefix(c: Config, steps: seq<Step>, hs: seq<seq<AccountResult>>)
    requires HeapRun(c, steps, hs) && steps != []
    ensures HeapRun(c, steps[..|steps| - 1], hs[..|steps|])
  {
    hide After, HeapEnabled, HeapMoves;
    var init := steps[..|steps| - 1];
    forall i | 0 <= i < |init| ensures init[..i] == steps[..i] {}
  }

  /** Every run of the program with its heap, whatever the interleaving, is a run of the pipeline, and its heap
  always holds exactly the buffered accounts. */
  lemma {:induction false} HeapRunIsRun(c: Config, steps: seq<Step>, hs: seq<seq<AccountResult>>)
    requires HeapRun(c, steps, hs)
    ensures After(c, steps).Some? && HeapHolds(c, After(c, steps).value, hs[|steps|])
    decreases |steps|
  {
    hide HeapHolds, HeapEnabled, HeapMoves, Enabled, Apply, Inv;
    if steps == [] {
      StartsEmpty(c);
    } else {
      var n := |steps| - 1;
      var init, a := steps[..n], steps[n];
      HeapRunPrefix(c, steps, hs);
      HeapRunIsRun(c, init, hs[..n + 1]);
      var s := After(c, init).value;
      RunKeepsInv(c, init);
      SameGuards(c, s, hs[n], a);
      StepKeepsHeap(c, s, a, hs[n], hs[n + 1]);
    }
  }

  /** Conversely every run of the pipeline is a run of the program, with some arrangement of its heap. */
  lemma {:induction false} RunHasHeaps(c: Config, steps: seq<Step>) returns (hs: seq<seq<AccountResult>>)
    requires After(c, steps).Some?
    ensures HeapRun(c, steps, hs) && Sorted(hs[|steps|])
    decreases |steps|
  {
    hide HeapHolds, HeapEnabled, Enabled, Apply, Inv, HeapMoves;
    if steps == [] {
      hs := [[]];
    } else {
      var n := |steps| - 1;
      var init, a := steps[..n], steps[n];
      var before := RunHasHeaps(c, init);
      HeapRunIsRun(c, init, before);
      var s := After(c, init).value;
      RunKeepsInv(c, init);
      SameGuards(c, s, before[n], a);
      var h' := SomeHeap(c, s, a, before[n]);
      hs := before + [h'];
      forall i | 0 <= i < |steps| ensures
          && After(c, steps[..i]).Some?
          && HeapEnabled(c, After(c, steps[..i]).value, hs[i], steps[i])
          && HeapMoves(c, After(c, steps[..i]).value, steps[i], hs[i], hs[i + 1])
      {
        if i < n { assert init[..i] == steps[..i] && init[i] == steps[i]; } else { assert steps[..i] == init; }
      }
    }
  }

  predicate Sorted(h: seq<AccountResult>) {
    forall i, j :: 0 <= i <= j < |h| ==> h[i].seqNum <= h[j].seqNum
  }

  lemma {:induction false} SortedIsHeap(h: seq<AccountResult>)
    requires Sorted(h)
    ensures HeapOrdered(h)
  {
    forall k | 0 < k < |h| ensures h[Parent(k)].seqNum <= h[k].seqNum {
      assert 0 <= Parent(k) <= k;
    }
  }

  lemma {:induction false} SomeInsertion(h: seq<AccountResult>, x: AccountResult) returns (h': seq<AccountResult>)
    requires Sorted(h)
    ensures Sorted(h') && multiset(h') == multiset(h) + multiset{x}
  {
    hide Sorted;
    var i := 0;
    while i < |h| && h[i].seqNum <= x.seqNum
      invariant 0 <= i <= |h| && forall j :: 0 <= j < i ==> h[j].seqNum <= x.seqNum
    {
      i := i + 1;
    }
    h' := h[..i] + [x] + h[i..];
    InsertedSorted(h, x, i);
    assert h == h[..i] + h[i..];
  }

  lemma {:induction false} InsertedSorted(h: seq<AccountResult>, x: AccountResult, i: nat)
    requires Sorted(h) && i <= |h| && (forall j :: 0 <= j < i ==> h[j].seqNum <= x.seqNum)
    requires i < |h| ==> x.seqNum < h[i].seqNum
    ensures Sorted(h[..i] + [x] + h[i..])
  {
    var t := h[..i] + [x] + h[i..];
    forall a, b | 0 <= a < b < |t| ensures t[a].seqNum <= t[b].seqNum {
      assert a < i ==> t[a] == h[a];
      assert a > i ==> t[a] == h[a - 1];
      assert b < i ==> t[b] == h[b];
      assert b > i ==> t[b] == h[b - 1] && h[i].seqNum <= h[b - 1].seqNum;
    }
  }

  lemma {:induction false} WithoutFirst(h: seq<AccountResult>)
    requires Sorted(h) && h != []
    ensures Sorted(h[1..]) && multiset(h[1..]) + multiset{h[0]} == multiset(h)
  {
    assert h == [h[0]] + h[1..];
  }

  /** A step always finds a heap to move to. */
  lemma {:induction false} SomeHeap(c: Config, s: State, a: Step, h: seq<AccountResult>)
    returns (h': seq<AccountResult>)
    requires Inv(c, s) && Sorted(h) && HeapEnabled(c, s, h, a) && Enabled(c, s, a)
    ensures Sorted(h') && HeapMoves(c, s, a, h, h')
  {
    hide Inv, Enabled, Sorted, HeapOrdered;
    h' := h;
    if a.WriterReceive? && !s.writerFailed {
      ReceiveInRange(c, s, a.k);
      h' := SomeInsertion(h, ResultOf(c, a.k));
    } else if a.WriterApply? || a.WriterFail? {
      WithoutFirst(h);
      h' := h[1..];
    }
    SortedIsHeap(h');
  }

  lemma {:induction false} ReceiveInRange(c: Config, s: State, k: nat)
    requires Inv(c, s) && Enabled(c, s, WriterReceive(k))
    ensures k < |c.accounts|
  {
    hide Paired, Flags;
  }

  /** One result arrives at any point of a run: it is pushed onto the heap, and the heap is drained while its
  top is the next number. The loop over the heap continues the run with steps of the pipeline: it receives,
  applies consecutive accounts, and stops at a gap or at the first account that fails. */
  method Receive(c: Config, h: ResultHeap, k: nat, nextSeq: nat, ghost before: seq<Step>)
    returns (next: nat, failed: bool, ghost steps: seq<Step>)
    requires After(c, before).Some?
    requires var s := After(c, before).value;
             && !s.returned && !s.draining && !s.writerFailed && nextSeq == s.nextSeq
             && IsAt(s, k, Ready) && HeapHolds(c, s, h.items)
    modifies h
    ensures nextSeq <= next && IsTurn(steps, k, next - nextSeq) && After(c, before + steps).Some?
    ensures var t := After(c, before + steps).value;
            HeapHolds(c, t, h.items) && t.nextSeq == next && !t.draining && failed == t.writerFailed
  {
    hide After, Inv, HeapHolds, IsTurn, From;
    ghost var s := After(c, before).value;
    RunKeepsInv(c, before);
    ghost var t;
    next, failed, steps, t := Turn(c, h, k, nextSeq, s);
    Continues(c, before, s, steps);
  }

  method Turn(c: Config, h: ResultHeap, k: nat, nextSeq: nat, ghost s: State)
    returns (next: nat, failed: bool, ghost steps: seq<Step>, ghost s': State)
    requires Inv(c, s) && !s.returned && !s.draining && !s.writerFailed && nextSeq == s.nextSeq
    requires IsAt(s, k, Ready) && HeapHolds(c, s, h.items)
    modifies h
    ensures h.Valid() && HeapHolds(c, s', h.items)
    ensures From(c, s, steps) == Some(s') && nextSeq <= next && IsTurn(steps, k, next - nextSeq)
    ensures s'.nextSeq == next && !s'.draining && failed == s'.writerFailed
  {
    hide Enabled, Apply, Inv, HeapHolds, TopIsNext, From;
    ReceiveStep(c, s, k);
    s' := Apply(c, s, WriterReceive(k));
    steps := [] + [WriterReceive(k)];
    FromNothing(c, s);
    FromSnoc(c, s, [], s, WriterReceive(k));
    HeapIsOrdered(c, s, h.items);
    h.Push(ResultOf(c, k));
    Pushed(c, s, s', k, old(h.items), h.items);
    next, failed := nextSeq, false;
    var isTop := CheckTop(c, h, next, s');
    while isTop
      invariant h.Valid() && HeapHolds(c, s', h.items) && Inv(c, s') && From(c, s, steps) == Some(s')
      invariant s'.draining && !s'.writerFailed && s'.nextSeq == next >= nextSeq && |steps| == next - nextSeq + 1
      invariant steps[0] == WriterReceive(k) && forall i :: 0 < i < |steps| ==> steps[i] == WriterApply
      invariant isTop <==> TopIsNext(s')
      invariant isTop ==> h.items != [] && next < |c.accounts| && h.items[0] == ResultOf(c, next)
      decreases |h.items|
    {
      ghost var before, items := s', h.items;
      var r := h.Pop();
      if r.fails {
        FailStep(c, before);
        s' := Apply(c, before, WriterFail);
        Popped(c, before, s', items, h.items);
        FromSnoc(c, s, steps, before, WriterFail);
        steps := steps + [WriterFail];
        failed := true;
        return;
      }
      ApplyStep(c, before);
      s' := Apply(c, before, WriterApply);
      Popped(c, before, s', items, h.items);
      FromSnoc(c, s, steps, before, WriterApply);
      steps := steps + [WriterApply];
      next := next + 1;
      isTop := CheckTop(c, h, next, s');
    }
    WaitStep(c, s');
    FromSnoc(c, s, steps, s', WriterWait);
    steps := steps + [WriterWait];
    SameHeap(c, s', Apply(c, s', WriterWait), h.items);
    s' := Apply(c, s', WriterWait);
  }
}
