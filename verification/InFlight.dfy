/** How much the pipeline of stems holds at a time: the channels and the semaphore are bounded, the reorder buffer
behind them is not. */
module InFlight {
  import opened Wrappers
  import opened TreeSpec
  import opened TrieRun
  import opened Pipeline
  import Accounts = AccountPipeline

  // ----- what is bounded

  ghost predicate Caps(c: Config, s: State) {
    && s.slots <= 64 && |s.workCh| <= 2 * (c.extraWorkers + 1) && |s.resultCh| <= 2 * (c.extraWorkers + 1)
    && |s.builderCh| <= 128
  }

  lemma {:induction false} StepKeepsCaps(c: Config, s: State, a: Step)
    requires Caps(c, s) && Enabled(c, s, a)
    ensures Caps(c, Apply(c, s, a))
  {
    hide Pipeline.ItemOf;
  }

  lemma {:induction false} RunKeepsCaps(c: Config, steps: seq<Step>)
    requires After(c, steps).Some?
    ensures Caps(c, After(c, steps).value)
    decreases |steps|
  {
    hide Pipeline.Enabled, Pipeline.Apply;
    if steps != [] {
      RunKeepsCaps(c, steps[..|steps| - 1]);
      StepKeepsCaps(c, After(c, steps[..|steps| - 1]).value, steps[|steps| - 1]);
    }
  }

  /** In every run the semaphore and the channels keep their capacities, and at most 64 stems are on their way from
  the reader to the results channel, 65 if the reader skipped the semaphore. */
  lemma {:induction false} InFlightBounded(c: Config, steps: seq<Step>)
    requires After(c, steps).Some?
    ensures var s := After(c, steps).value;
      && s.slots <= 64 && |s.workCh| <= 2 * (c.extraWorkers + 1) && |s.resultCh| <= 2 * (c.extraWorkers + 1)
      && |s.builderCh| <= 128
      && One(s.holdsSlot) + |s.workCh| + BusyWorkers(s.workers) <= 64 + One(s.skipped)
  {
    hide Pipeline.After, Pipeline.BusyWorkers;
    RunKeepsCaps(c, steps);
    RunKeepsSlots(c, steps);
  }

  // ----- the reorder buffer with one worker

  /** With one worker the stems travel in a line: everything behind the buffer is numbered without a gap. */
  ghost predicate InLine(s: State) {
    && |s.workers| == 1
    && (forall k :: k in s.pending ==> k == s.nextSeq)
    && (!s.forwarding ==> s.nextSeq !in s.pending)
    && (forall i :: 0 <= i < |s.resultCh| ==> s.resultCh[i].seqNum == Base(s) + i)
    && (!s.workers[0].Exited? ==> LineUp(s))
  }

  /** The number of the first stem behind the buffer. */
  function Base(s: State): nat { s.nextSeq + One(s.nextSeq in s.pending) }

  ghost predicate LineUp(s: State)
    requires |s.workers| == 1
  {
    var next := Base(s) + |s.resultCh|;
    var first := next + One(s.workers[0].Hashing?);
    && (s.workers[0].Hashing? ==> s.workers[0].seqNum == next)
    && (forall i :: 0 <= i < |s.workCh| ==> s.workCh[i] == first + i)
    && first + |s.workCh| == s.sent
  }

  lemma {:induction false} StepKeepsLine(c: Config, s: State, a: Step)
    requires InLine(s) && Enabled(c, s, a)
    ensures InLine(Apply(c, s, a))
  {
    hide Pipeline.Enabled, Pipeline.Apply;
    if IsWorkerStep(a) {
      WorkerKeepsLine(c, s, a);
    } else if IsReaderStep(a) {
      ReaderKeepsLine(c, s, a);
    } else {
      OutputKeepsLine(c, s, a);
    }
  }

  lemma {:induction false} WorkerKeepsLine(c: Config, s: State, a: Step)
    requires InLine(s) && Enabled(c, s, a) && IsWorkerStep(a)
    ensures InLine(Apply(c, s, a))
  {
    hide Pipeline.ItemOf, Pipeline.ReaderEnabled, Pipeline.ReaderApply, Pipeline.OutputEnabled, Pipeline.OutputApply;
    assert a.w == 0;
  }

  lemma {:induction false} ReaderKeepsLine(c: Config, s: State, a: Step)
    requires InLine(s) && Enabled(c, s, a) && IsReaderStep(a)
    ensures InLine(Apply(c, s, a))
  {
    hide Pipeline.WorkerEnabled, Pipeline.WorkerApply, Pipeline.OutputEnabled, Pipeline.OutputApply;
  }

  lemma {:induction false} OutputKeepsLine(c: Config, s: State, a: Step)
    requires InLine(s) && Enabled(c, s, a) && !IsReaderStep(a) && !IsWorkerStep(a)
    ensures InLine(Apply(c, s, a))
  {
    hide Pipeline.ReaderEnabled, Pipeline.ReaderApply, Pipeline.WorkerEnabled, Pipeline.WorkerApply, Pipeline.AllExited;
  }

  lemma {:induction false} RunKeepsLine(c: Config, steps: seq<Step>)
    requires c.extraWorkers == 0 && After(c, steps).Some?
    ensures InLine(After(c, steps).value)
    decreases |steps|
  {
    hide Pipeline.Enabled, Pipeline.Apply, InLine;
    if steps == [] {
      LineStart(c);
    } else {
      RunKeepsLine(c, steps[..|steps| - 1]);
      StepKeepsLine(c, After(c, steps[..|steps| - 1]).value, steps[|steps| - 1]);
    }
  }

  lemma {:induction false} LineStart(c: Config)
    requires c.extraWorkers == 0
    ensures InLine(Init(c))
  {
  }

  /** With one worker at most one result waits in the buffer, and it is the next one. */
  lemma {:induction false} OneWorkerBounded(c: Config, steps: seq<Step>)
    requires c.extraWorkers == 0 && After(c, steps).Some?
    ensures var s := After(c, steps).value; |s.pending| <= 1 && forall k :: k in s.pending ==> k == s.nextSeq
  {
    hide Pipeline.After;
    RunKeepsLine(c, steps);
    var s := After(c, steps).value;
    assert s.pending.Keys <= {s.nextSeq};
    SubsetSize(s.pending.Keys, {s.nextSeq});
  }

  lemma {:induction false} SubsetSize(a: set<nat>, b: set<nat>)
    requires a <= b
    ensures |a| <= |b|
  {
    assert b == a + (b - a);
  }

  // ----- the reorder buffer with more workers

  /** Worker 0 still hashes stem 0, worker 1 has hashed the n stems behind it, and all these results wait. */
  function Piled(c: Config, n: nat): State
    requires n + 1 <= |c.work|
  {
    Init(c).(sent := n + 1, slots := 1, workers := Init(c).workers[0 := Hashing(0)], pending := Waiting(c, n))
  }

  /** The items 1 to n. */
  function Waiting(c: Config, n: nat): map<nat, Item>
    requires n + 1 <= |c.work|
  {
    map k: nat | 1 <= k <= n :: ItemOf(c, k)
  }

  lemma {:induction false} WaitingSize(c: Config, n: nat)
    requires n + 1 <= |c.work|
    ensures |Waiting(c, n)| == n
  {
    hide Pipeline.ItemOf;
    if n == 0 {
      assert Waiting(c, 0) == map[];
    } else {
      WaitingSize(c, n - 1);
      WaitingNext(c, n - 1);
    }
  }

  lemma {:induction false} WaitingNext(c: Config, n: nat)
    requires n + 2 <= |c.work|
    ensures Waiting(c, n)[n + 1 := ItemOf(c, n + 1)] == Waiting(c, n + 1)
    ensures n + 1 !in Waiting(c, n) && 0 !in Waiting(c, n + 1)
  {
    hide Pipeline.ItemOf;
  }

  lemma {:induction false} FirstDispatched(c: Config) returns (steps: seq<Step>)
    requires |c.work| >= 2
    ensures After(c, steps) == Some(Piled(c, 0))
  {
    hide Pipeline.After, Pipeline.ItemOf;
    AfterNothing(c);
    var s0 := Init(c);
    var s1 := s0.(holdsSlot := true, slots := 1);
    Extend(c, [], s0, ReaderAcquire, s1);
    var s2 := s1.(holdsSlot := false, workCh := [0], sent := 1);
    Extend(c, [] + [ReaderAcquire], s1, ReaderSend, s2);
    var s3 := s2.(workers := s0.workers[0 := Hashing(0)], workCh := []);
    Extend(c, [] + [ReaderAcquire] + [ReaderSend], s2, WorkerTake(0), s3);
    assert Waiting(c, 0) == map[];
    steps := [] + [ReaderAcquire] + [ReaderSend] + [WorkerTake(0)];
  }

  /** One more stem goes past the first one. */
  lemma {:induction false} OneMore(c: Config, before: seq<Step>, n: nat) returns (steps: seq<Step>)
    requires c.extraWorkers >= 1 && n + 3 <= |c.work| && After(c, before) == Some(Piled(c, n))
    ensures After(c, steps) == Some(Piled(c, n + 1))
  {
    hide Pipeline.After, Pipeline.ItemOf, Waiting;
    var s0 := Piled(c, n);
    var s1 := s0.(holdsSlot := true, slots := 2);
    Extend(c, before, s0, ReaderAcquire, s1);
    steps := before + [ReaderAcquire];
    var s2 := s1.(holdsSlot := false, workCh := [n + 1], sent := n + 2);
    Extend(c, steps, s1, ReaderSend, s2);
    steps := steps + [ReaderSend];
    var s3 := s2.(workers := s0.workers[1 := Hashing(n + 1)], workCh := []);
    Extend(c, steps, s2, WorkerTake(1), s3);
    steps := steps + [WorkerTake(1)];
    steps := Overtakes(c, steps, n, s3);
  }

  lemma {:induction false} Overtakes(c: Config, before: seq<Step>, n: nat, s3: State) returns (steps: seq<Step>)
    requires c.extraWorkers >= 1 && n + 3 <= |c.work| && After(c, before) == Some(s3)
    requires s3 == Piled(c, n).(slots := 2, sent := n + 2, workers := Piled(c, n).workers[1 := Hashing(n + 1)])
    ensures After(c, steps) == Some(Piled(c, n + 1))
  {
    hide Pipeline.After, Pipeline.ItemOf, Waiting, Pipeline.ReaderEnabled, Pipeline.ReaderApply;
    var x := ItemOf(c, n + 1);
    var ws := Piled(c, n).workers;
    var s4 := s3.(workers := ws[1 := Releasing], resultCh := [Result(n + 1, x)]);
    Extend(c, before, s3, WorkerSend(1), s4);
    steps := before + [WorkerSend(1)];
    assert ws[1 := Idle] == ws;
    var s5 := s4.(workers := ws, slots := 1);
    Extend(c, steps, s4, WorkerRelease(1), s5);
    steps := steps + [WorkerRelease(1)];
    WaitingNext(c, n);
    var s6 := s5.(pending := Waiting(c, n + 1), resultCh := [], forwarding := true);
    Extend(c, steps, s5, ReseqReceive, s6);
    steps := steps + [ReseqReceive];
    Extend(c, steps, s6, ReseqNext, Piled(c, n + 1));
    steps := steps + [ReseqNext];
  }

  /** With two workers or more, all stems but the first and the last can wait in the buffer at once, while a single
  semaphore slot is taken and nothing was cancelled. */
  lemma {:induction false} BufferGrows(c: Config, n: nat) returns (steps: seq<Step>)
    requires c.extraWorkers >= 1 && n + 2 <= |c.work|
    ensures After(c, steps).Some?
    ensures var s := After(c, steps).value; |s.pending| == n && s.slots == 1 && !s.cancelled
    decreases n
  {
    hide Pipeline.After, Waiting;
    steps := Pile(c, n);
    WaitingSize(c, n);
  }

  lemma {:induction false} Pile(c: Config, n: nat) returns (steps: seq<Step>)
    requires c.extraWorkers >= 1 && n + 2 <= |c.work|
    ensures After(c, steps) == Some(Piled(c, n))
    decreases n
  {
    hide Pipeline.After, Piled;
    if n == 0 {
      steps := FirstDispatched(c);
    } else {
      steps := Pile(c, n - 1);
      steps := OneMore(c, steps, n - 1);
    }
  }

  /** The buffer is bounded by a number smaller than the input if and only if there is one worker. */
  lemma {:induction false} BufferBoundedIff(c: Config, bound: nat)
    requires 1 <= bound && bound + 3 <= |c.work|
    ensures (forall steps :: After(c, steps).Some? ==> |After(c, steps).value.pending| <= bound)
       <==> c.extraWorkers == 0
  {
    hide Pipeline.After;
    if c.extraWorkers == 0 {
      forall steps | After(c, steps).Some? ensures |After(c, steps).value.pending| <= bound {
        OneWorkerBounded(c, steps);
      }
    } else {
      var steps := BufferGrows(c, bound + 1);
      assert |After(c, steps).value.pending| > bound;
    }
  }

  // ----- the pipeline of accounts

  ghost predicate AccountCaps(c: Accounts.Config, s: Accounts.State) {
    && |Accounts.All(s, Accounts.Queued)| <= 2 * (c.extraWorkers + 1)
    && |Accounts.All(s, Accounts.Ready)| <= 2 * (c.extraWorkers + 1)
  }

  /** Moving one account adds at most that one to any place, and none to a place it does not go to. */
  lemma {:induction false} OneMoves(
    s: Accounts.State, s': Accounts.State, k: nat, to: Accounts.Place, p: Accounts.Place)
    requires k < |s.place| && s'.place == s.place[k := to]
    ensures |Accounts.All(s', p)| <= |Accounts.All(s, p)| + One(to == p)
  {
    var a, b := Accounts.All(s, p), Accounts.All(s', p);
    if to == p {
      assert b <= a + {k};
      SubsetSize(b, a + {k});
    } else {
      SubsetSize(b, a);
    }
  }

  lemma {:induction false} MoveKeepsCaps(
    c: Accounts.Config, s: Accounts.State, s': Accounts.State, k: nat, to: Accounts.Place)
    requires AccountCaps(c, s) && k < |s.place| && s'.place == s.place[k := to]
    requires to == Accounts.Queued || to == Accounts.Ready ==> |Accounts.All(s, to)| < 2 * (c.extraWorkers + 1)
    ensures AccountCaps(c, s')
  {
    OneMoves(s, s', k, to, Accounts.Queued);
    OneMoves(s, s', k, to, Accounts.Ready);
    hide Accounts.All;
  }

  lemma {:induction false} StayKeepsCaps(c: Accounts.Config, s: Accounts.State, s': Accounts.State)
    requires AccountCaps(c, s) && s'.place == s.place
    ensures AccountCaps(c, s')
  {
    assert Accounts.All(s', Accounts.Queued) == Accounts.All(s, Accounts.Queued);
    assert Accounts.All(s', Accounts.Ready) == Accounts.All(s, Accounts.Ready);
  }

  /** A step moves at most one account: to the queue only by the reader, to the results only by a worker. */
  lemma {:induction false} StepKeepsAccountCaps(c: Accounts.Config, s: Accounts.State, a: Accounts.Step)
    requires AccountCaps(c, s) && Accounts.Enabled(c, s, a)
    ensures AccountCaps(c, Accounts.Apply(c, s, a))
  {
    hide AccountCaps, Accounts.Enabled, Accounts.Apply;
    if Accounts.IsWorkerStep(a) {
      WorkerKeepsCaps(c, s, a);
    } else if Accounts.IsReaderStep(a) {
      ReaderKeepsCaps(c, s, a);
    } else {
      WriterKeepsCaps(c, s, a);
    }
  }

  lemma {:induction false} ReaderKeepsCaps(c: Accounts.Config, s: Accounts.State, a: Accounts.Step)
    requires AccountCaps(c, s) && Accounts.Enabled(c, s, a) && Accounts.IsReaderStep(a)
    ensures AccountCaps(c, Accounts.Apply(c, s, a))
  {
    hide AccountCaps, Accounts.All, Accounts.WorkerEnabled, Accounts.WorkerMove, Accounts.WriterEnabled,
      Accounts.WriterMove;
    var s' := Accounts.Apply(c, s, a);
    if a.ReaderSend? { MoveKeepsCaps(c, s, s', s.sent, Accounts.Queued); } else { StayKeepsCaps(c, s, s'); }
  }

  lemma {:induction false} WorkerKeepsCaps(c: Accounts.Config, s: Accounts.State, a: Accounts.Step)
    requires AccountCaps(c, s) && Accounts.Enabled(c, s, a) && Accounts.IsWorkerStep(a)
    ensures AccountCaps(c, Accounts.Apply(c, s, a))
  {
    hide AccountCaps, Accounts.All, Accounts.ReaderEnabled, Accounts.ReaderMove, Accounts.WriterEnabled,
      Accounts.WriterMove, Accounts.NoneAt;
    var s' := Accounts.Apply(c, s, a);
    match a
    case WorkerTake(w, k) => MoveKeepsCaps(c, s, s', k, Accounts.Working(w));
    case WorkerSend(w) => MoveKeepsCaps(c, s, s', s.workers[w].k, Accounts.Ready);
    case WorkerDrop(w) => MoveKeepsCaps(c, s, s', s.workers[w].k, Accounts.Dropped);
    case WorkerExit(_, _) => StayKeepsCaps(c, s, s');
  }

  lemma {:induction false} WriterKeepsCaps(c: Accounts.Config, s: Accounts.State, a: Accounts.Step)
    requires AccountCaps(c, s) && Accounts.Enabled(c, s, a) && !Accounts.IsReaderStep(a) && !Accounts.IsWorkerStep(a)
    ensures AccountCaps(c, Accounts.Apply(c, s, a))
  {
    hide AccountCaps, Accounts.All, Accounts.ReaderEnabled, Accounts.ReaderMove, Accounts.WorkerEnabled,
      Accounts.WorkerMove, Accounts.NoneAt, Accounts.AllExited;
    var s' := Accounts.Apply(c, s, a);
    match a
    case WriterReceive(k) => MoveKeepsCaps(c, s, s', k, if s.writerFailed then Accounts.Dropped else Accounts.Buffered);
    case WriterApply => MoveKeepsCaps(c, s, s', s.nextSeq, Accounts.Applied);
    case WriterFail => MoveKeepsCaps(c, s, s', s.nextSeq, Accounts.Dropped);
    case _ => StayKeepsCaps(c, s, s');
  }

  /** In every run both channels of the account pipeline keep their capacity. */
  lemma {:induction false} AccountsBounded(c: Accounts.Config, steps: seq<Accounts.Step>)
    requires Accounts.After(c, steps).Some?
    ensures var s := Accounts.After(c, steps).value;
      && |Accounts.All(s, Accounts.Queued)| <= 2 * (c.extraWorkers + 1)
      && |Accounts.All(s, Accounts.Ready)| <= 2 * (c.extraWorkers + 1)
    decreases |steps|
  {
    hide Accounts.Enabled, Accounts.Apply, Accounts.All;
    if steps == [] {
      Accounts.AllNone(Accounts.Init(c), Accounts.Queued);
      Accounts.AllNone(Accounts.Init(c), Accounts.Ready);
    } else {
      AccountsBounded(c, steps[..|steps| - 1]);
      StepKeepsAccountCaps(c, Accounts.After(c, steps[..|steps| - 1]).value, steps[|steps| - 1]);
    }
  }
}
