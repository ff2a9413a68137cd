/** The account pipeline of the ethrex writer as a step system: a reader numbers the sorted accounts,
workers build them, and one writer applies them in number order through a reorder heap. Channels hold sets of
accounts, so every delivery order is covered. */
module AccountPipeline {
  import opened Wrappers

  /** Whether the spilled blob decodes, and whether applying the built account fails. */
  datatype Account = Account(decodes: bool, fails: bool)

  datatype Config = Config(accounts: seq<Account>, extraWorkers: nat) {
    function NumWorkers(): nat { extraWorkers + 1 }
    function ChannelCap(): nat { 2 * NumWorkers() }
  }

  /** Where an account is. */
  datatype Place = Unread | Queued | Working(w: nat) | Ready | Buffered | Applied | Dropped

  datatype Worker = Idle | Busy(k: nat) | Exited

  datatype State = State(
    place: seq<Place>,
    sent: nat,               // accounts read and numbered
    readerDone: bool,        // workCh is closed
    workers: seq<Worker>,
    draining: bool,          // the writer is draining its heap
    nextSeq: nat,
    applied: seq<nat>,       // numbers in the order they reached the account trie
    writerFailed: bool,
    cancelled: bool,         // the pipeline's context is done
    parentCancelled: bool,   // the caller's context is done
    firstErr: bool,
    returned: bool)

  datatype Step =
    | ReaderSend | ReaderAbort | ReaderDecodeFail | ReaderIterFail | ReaderFinish
    | WorkerTake(w: nat, k: nat) | WorkerSend(w: nat) | WorkerDrop(w: nat) | WorkerExit(w: nat, closeFails: bool)
    | WriterReceive(k: nat) | WriterApply | WriterFail | WriterWait | WriterReturn
    | ParentCancel

  function Init(c: Config): State {
    State(seq(|c.accounts|, _ => Unread), 0, false, seq(c.NumWorkers(), _ => Idle), false, 0, [], false, false, false,
        false, false)
  }

  predicate IsAt(s: State, k: nat, p: Place) {
    k < |s.place| && s.place[k] == p
  }

  ghost function All(s: State, p: Place): set<nat> {
    set k: nat | k < |s.place| && s.place[k] == p
  }

  lemma {:induction false} AllNone(s: State, p: Place)
    requires NoneAt(s, p)
    ensures |All(s, p)| == 0
  {
    forall k: nat ensures k !in All(s, p) { assert !IsAt(s, k, p); }
    assert All(s, p) == {};
  }

  ghost predicate NoneAt(s: State, p: Place) {
    forall k: nat :: !IsAt(s, k, p)
  }

  lemma {:induction false} SamePlaces(s: State, s': State, p: Place)
    requires s'.place == s.place
    ensures NoneAt(s, p) ==> NoneAt(s', p)
  {
    if NoneAt(s, p) {
      forall k: nat ensures !IsAt(s', k, p) { assert !IsAt(s, k, p); }
    }
  }

  predicate AllExited(s: State) {
    forall i :: 0 <= i < |s.workers| ==> s.workers[i].Exited?
  }

  predicate IsBusy(s: State, w: nat) {
    w < |s.workers| && s.workers[w].Busy? && s.workers[w].k < |s.place|
  }

  predicate IsIdle(s: State, w: nat) {
    w < |s.workers| && s.workers[w].Idle?
  }

  /** The top of the heap is the next number. */
  ghost predicate TopIsNext(s: State) {
    IsAt(s, s.nextSeq, Buffered) && forall k: nat :: IsAt(s, k, Buffered) ==> s.nextSeq <= k
  }

  predicate IsWorkerStep(a: Step) {
    a.WorkerTake? || a.WorkerSend? || a.WorkerDrop? || a.WorkerExit?
  }

  predicate IsReaderStep(a: Step) {
    a.ReaderSend? || a.ReaderAbort? || a.ReaderDecodeFail? || a.ReaderIterFail? || a.ReaderFinish?
  }

  ghost predicate ReaderEnabled(c: Config, s: State, a: Step) {
    match a
    case ReaderSend =>
      && !s.readerDone && s.sent < |c.accounts| && s.sent < |s.place| && c.accounts[s.sent].decodes
      && |All(s, Queued)| < c.ChannelCap()
    case ReaderAbort => !s.readerDone && s.sent < |c.accounts| && s.cancelled
    case ReaderDecodeFail => !s.readerDone && s.sent < |c.accounts| && !c.accounts[s.sent].decodes
    case ReaderIterFail => !s.readerDone
    case ReaderFinish => !s.readerDone && s.sent == |c.accounts|
    case _ => false
  }

  ghost predicate WorkerEnabled(c: Config, s: State, a: Step) {
    match a
    case WorkerTake(w, k) => IsIdle(s, w) && IsAt(s, k, Queued)
    case WorkerSend(w) => IsBusy(s, w) && |All(s, Ready)| < c.ChannelCap()
    case WorkerDrop(w) => IsBusy(s, w) && s.cancelled
    case WorkerExit(w, closeFails) => IsIdle(s, w) && s.readerDone && NoneAt(s, Queued)
    case _ => false
  }

  ghost predicate WriterEnabled(c: Config, s: State, a: Step) {
    match a
    case WriterReceive(k) => !s.returned && !s.draining && IsAt(s, k, Ready)
    case WriterApply => s.draining && TopIsNext(s) && s.nextSeq < |c.accounts| && !c.accounts[s.nextSeq].fails
    case WriterFail => s.draining && TopIsNext(s) && s.nextSeq < |c.accounts| && c.accounts[s.nextSeq].fails
    case WriterWait => s.draining && !TopIsNext(s)
    case WriterReturn => !s.returned && !s.draining && AllExited(s) && NoneAt(s, Ready) && s.readerDone
    case ParentCancel => !s.parentCancelled
    case _ => false
  }

  ghost predicate Enabled(c: Config, s: State, a: Step) {
    if IsReaderStep(a) then ReaderEnabled(c, s, a)
    else if IsWorkerStep(a) then WorkerEnabled(c, s, a)
    else WriterEnabled(c, s, a)
  }

  /** Records an error, which cancels the pipeline. */
  function SetErr(s: State): State { s.(firstErr := true, cancelled := true) }

  ghost function ReaderMove(c: Config, s: State, a: Step): State
    requires ReaderEnabled(c, s, a)
  {
    match a
    case ReaderSend => s.(place := s.place[s.sent := Queued], sent := s.sent + 1)
    case ReaderAbort => SetErr(s.(readerDone := true))
    case ReaderDecodeFail => SetErr(s.(readerDone := true))
    case ReaderIterFail => SetErr(s.(readerDone := true))
    case ReaderFinish => s.(readerDone := true)
  }

  ghost function WorkerMove(c: Config, s: State, a: Step): State
    requires WorkerEnabled(c, s, a)
  {
    match a
    case WorkerTake(w, k) => s.(workers := s.workers[w := Busy(k)], place := s.place[k := Working(w)])
    case WorkerSend(w) => s.(workers := s.workers[w := Idle], place := s.place[s.workers[w].k := Ready])
    case WorkerDrop(w) => s.(workers := s.workers[w := Idle], place := s.place[s.workers[w].k := Dropped])
    case WorkerExit(w, closeFails) =>
      var t := s.(workers := s.workers[w := Exited]);
      if closeFails then SetErr(t) else t
  }

  ghost function WriterMove(c: Config, s: State, a: Step): State
    requires WriterEnabled(c, s, a)
  {
    match a
    case WriterReceive(k) =>
      if s.writerFailed then s.(place := s.place[k := Dropped])
      else s.(place := s.place[k := Buffered], draining := true)
    case WriterApply =>
      s.(place := s.place[s.nextSeq := Applied], applied := s.applied + [s.nextSeq], nextSeq := s.nextSeq + 1)
    case WriterFail => SetErr(s.(place := s.place[s.nextSeq := Dropped], writerFailed := true, draining := false))
    case WriterWait => s.(draining := false)
    case WriterReturn => s.(returned := true)
    case ParentCancel => s.(parentCancelled := true, cancelled := true)
  }

  ghost function Apply(c: Config, s: State, a: Step): State
    requires Enabled(c, s, a)
  {
    if IsReaderStep(a) then ReaderMove(c, s, a)
    else if IsWorkerStep(a) then WorkerMove(c, s, a)
    else WriterMove(c, s, a)
  }

  ghost function After(c: Config, steps: seq<Step>): Option<State> {
    if steps == [] then Some(Init(c)) else
      var p := After(c, steps[..|steps| - 1]);
      if p.Some? && Enabled(c, p.value, steps[|steps| - 1]) then Some(Apply(c, p.value, steps[|steps| - 1])) else None
  }

  // ----- safety

  function Numbers(n: nat): seq<nat> { seq(n, i => i) }

  /** Numbers are read in order, and the writer has applied exactly the first nextSeq. */
  ghost predicate Ordered(c: Config, s: State) {
    && |s.place| == |c.accounts| && s.sent <= |c.accounts| && s.nextSeq <= |c.accounts|
    && (forall k :: 0 <= k < |s.place| ==> (s.place[k] == Unread <==> k >= s.sent))
    && (forall k :: 0 <= k < |s.place| ==> (s.place[k] == Applied <==> k < s.nextSeq))
    && s.applied == Numbers(s.nextSeq)
  }

  /** A working account and its worker name each other. */
  ghost predicate Paired(c: Config, s: State) {
    && |s.workers| == c.NumWorkers()
    && (forall w :: 0 <= w < |s.workers| && s.workers[w].Busy? ==> IsAt(s, s.workers[w].k, Working(w)))
    && (forall k :: 0 <= k < |s.place| && s.place[k].Working? ==>
          s.place[k].w < |s.workers| && s.workers[s.place[k].w] == Busy(k))
  }

  /** Accounts are dropped only after a cancellation, and that has a reason. */
  ghost predicate ErrorFlags(c: Config, s: State) {
    && (forall k :: 0 <= k < |s.place| && s.place[k] == Dropped ==> s.cancelled)
    && (s.cancelled ==> s.parentCancelled || s.firstErr)
    && (s.firstErr ==> s.cancelled)
    && (s.writerFailed ==> s.firstErr)
    && (s.readerDone && !s.firstErr ==> s.sent == |c.accounts|)
  }

  /** The writer does not wait for an account it has already buffered. */
  ghost predicate HeapFlag(s: State) {
    !s.draining && !s.writerFailed ==> !IsAt(s, s.nextSeq, Buffered)
  }

  /** A worker exits, and the call returns, only when nothing is left for it. */
  ghost predicate EndFlags(s: State) {
    && (forall w :: 0 <= w < |s.workers| && s.workers[w].Exited? ==> s.readerDone && NoneAt(s, Queued))
    && (s.returned ==> s.readerDone && AllExited(s) && !s.draining && NoneAt(s, Ready))
  }

  ghost predicate Flags(c: Config, s: State) {
    ErrorFlags(c, s) && HeapFlag(s) && EndFlags(s)
  }

  ghost predicate Inv(c: Config, s: State) {
    Ordered(c, s) && Paired(c, s) && Flags(c, s)
  }

  /** The account a step moves, or the number of accounts when it moves none. */
  ghost function Moved(c: Config, s: State, a: Step): nat
    requires Enabled(c, s, a)
  {
    match a
    case ReaderSend => s.sent
    case WorkerTake(_, k) => k
    case WorkerSend(w) => s.workers[w].k
    case WorkerDrop(w) => s.workers[w].k
    case WriterReceive(k) => k
    case WriterApply => s.nextSeq
    case WriterFail => s.nextSeq
    case _ => |s.place|
  }

  /** Only account k may change its place. */
  ghost predicate OneMoved(c: Config, s: State, a: Step, s': State)
    requires Enabled(c, s, a)
  {
    && |s'.place| == |s.place|
    && (forall j :: 0 <= j < |s.place| && j != Moved(c, s, a) ==> s'.place[j] == s.place[j])
    && (Moved(c, s, a) < |s.place| ==> MovedTo(a, s'.place[Moved(c, s, a)]))
  }

  predicate MovedTo(a: Step, p: Place) {
    match a
    case ReaderSend => p == Queued
    case WorkerTake(w, _) => p == Working(w)
    case WorkerSend(_) => p == Ready
    case WriterApply => p == Applied
    case WriterReceive(_) => p == Buffered || p == Dropped
    case _ => p == Dropped
  }

  /** A step moves at most one account, and to the place that belongs to the step. */
  lemma {:induction false} MovesOne(c: Config, s: State, a: Step)
    requires Enabled(c, s, a)
    ensures OneMoved(c, s, a, Apply(c, s, a))
  {
    hide Enabled, Apply, OneMoved;
    if IsWorkerStep(a) {
      WorkerMovesOne(c, s, a);
    } else if IsReaderStep(a) {
      ReaderMovesOne(c, s, a);
    } else {
      WriterMovesOne(c, s, a);
    }
  }

  lemma {:induction false} WorkerMovesOne(c: Config, s: State, a: Step)
    requires Enabled(c, s, a) && IsWorkerStep(a)
    ensures OneMoved(c, s, a, Apply(c, s, a))
  {
    hide ReaderEnabled, ReaderMove, WriterEnabled, WriterMove, All, NoneAt, AllExited;
  }

  lemma {:induction false} ReaderMovesOne(c: Config, s: State, a: Step)
    requires Enabled(c, s, a) && IsReaderStep(a)
    ensures OneMoved(c, s, a, Apply(c, s, a))
  {
    hide WorkerEnabled, WorkerMove, WriterEnabled, WriterMove, All, NoneAt, AllExited;
  }

  lemma {:induction false} WriterMovesOne(c: Config, s: State, a: Step)
    requires Enabled(c, s, a) && !IsWorkerStep(a) && !IsReaderStep(a)
    ensures OneMoved(c, s, a, Apply(c, s, a))
  {
    hide ReaderEnabled, ReaderMove, WorkerEnabled, WorkerMove, All, NoneAt, AllExited;
  }

  /** The place an account is moved from. */
  lemma {:induction false} MovedFrom(c: Config, s: State, a: Step)
    requires Paired(c, s) && Ordered(c, s) && Enabled(c, s, a)
    ensures var k := Moved(c, s, a);
            k < |s.place| ==> match a
              case ReaderSend => s.place[k] == Unread
              case WorkerTake(w, _) => s.place[k] == Queued
              case WorkerSend(w) => s.place[k] == Working(w)
              case WorkerDrop(w) => s.place[k] == Working(w)
              case WriterReceive(_) => s.place[k] == Ready
              case _ => s.place[k] == Buffered
  {
    hide All, NoneAt, AllExited;
  }

  ghost predicate CountersMatch(c: Config, s: State, a: Step, s': State)
    requires Enabled(c, s, a)
  {
    && s'.sent == s.sent + One(a.ReaderSend?)
    && s'.nextSeq == s.nextSeq + One(a.WriterApply?)
    && s'.applied == (if a.WriterApply? then s.applied + [s.nextSeq] else s.applied)
    && (a.ReaderSend? ==> s.sent < |c.accounts|) && (a.WriterApply? ==> s.nextSeq < |c.accounts|)
    && (s'.parentCancelled <==> s.parentCancelled || a == ParentCancel)
    && (s.readerDone ==> s'.readerDone && !a.ReaderSend?)
    && (s'.returned <==> s.returned || a == WriterReturn)
    && (!IsWorkerStep(a) ==> s'.workers == s.workers)
  }

  /** The counters change only where their steps say so. */
  lemma {:induction false} CountersChange(c: Config, s: State, a: Step)
    requires Enabled(c, s, a)
    ensures CountersMatch(c, s, a, Apply(c, s, a))
  {
    hide Enabled, Apply, CountersMatch;
    if IsWorkerStep(a) {
      WorkerCountersChange(c, s, a);
    } else if IsReaderStep(a) {
      ReaderCountersChange(c, s, a);
    } else {
      WriterCountersChange(c, s, a);
    }
  }

  lemma {:induction false} WorkerCountersChange(c: Config, s: State, a: Step)
    requires Enabled(c, s, a) && IsWorkerStep(a)
    ensures CountersMatch(c, s, a, Apply(c, s, a))
  {
    hide ReaderEnabled, ReaderMove, WriterEnabled, WriterMove, All, NoneAt, AllExited;
  }

  lemma {:induction false} ReaderCountersChange(c: Config, s: State, a: Step)
    requires Enabled(c, s, a) && IsReaderStep(a)
    ensures CountersMatch(c, s, a, Apply(c, s, a))
  {
    hide WorkerEnabled, WorkerMove, WriterEnabled, WriterMove, All, NoneAt, AllExited;
  }

  lemma {:induction false} WriterCountersChange(c: Config, s: State, a: Step)
    requires Enabled(c, s, a) && !IsWorkerStep(a) && !IsReaderStep(a)
    ensures CountersMatch(c, s, a, Apply(c, s, a))
  {
    hide ReaderEnabled, ReaderMove, WorkerEnabled, WorkerMove, All, NoneAt, AllExited;
  }

  lemma {:induction false} StepKeepsOrdered(c: Config, s: State, a: Step)
    requires Ordered(c, s) && Paired(c, s) && Enabled(c, s, a)
    ensures Ordered(c, Apply(c, s, a))
  {
    hide Enabled, Apply, Paired;
    MovesOne(c, s, a);
    MovedFrom(c, s, a);
    CountersChange(c, s, a);
    if a.WriterApply? { assert Numbers(s.nextSeq + 1) == Numbers(s.nextSeq) + [s.nextSeq]; }
  }

  lemma {:induction false} StepKeepsPaired(c: Config, s: State, a: Step)
    requires Paired(c, s) && Ordered(c, s) && Enabled(c, s, a)
    ensures Paired(c, Apply(c, s, a))
  {
    hide Enabled, Apply, Moved, Ordered;
    if IsWorkerStep(a) {
      WorkerKeepsPaired(c, s, a);
    } else {
      MovesOne(c, s, a);
      MovedFrom(c, s, a);
      CountersChange(c, s, a);
    }
  }

  lemma {:induction false} WorkerKeepsPaired(c: Config, s: State, a: Step)
    requires IsWorkerStep(a) && Paired(c, s) && Enabled(c, s, a)
    ensures Paired(c, Apply(c, s, a))
  {
    hide TopIsNext, All, NoneAt, AllExited;
    var s' := Apply(c, s, a);
    if a.WorkerTake? {
      Rewired(c, s, s', a.w, a.k);
    } else if a.WorkerExit? {
      Rewired(c, s, s', a.w, |s.place|);
    } else {
      Rewired(c, s, s', a.w, s.workers[a.w].k);
    }
  }

  /** Worker w and account k change together. */
  lemma {:induction false} Rewired(c: Config, s: State, s': State, w: nat, k: nat)
    requires Paired(c, s) && w < |s.workers| && |s'.place| == |s.place|
    requires |s'.workers| == |s.workers| && s'.workers == s.workers[w := s'.workers[w]]
    requires forall j :: 0 <= j < |s.place| && j != k ==> s'.place[j] == s.place[j]
    requires s.workers[w] == Busy(k) || !s.workers[w].Busy?
    requires k < |s.place| ==> s.place[k] == Working(w) || !s.place[k].Working?
    requires s'.workers[w].Busy? ==> s'.workers[w] == Busy(k) && k < |s.place| && s'.place[k] == Working(w)
    requires k < |s.place| && s'.place[k].Working? ==> s'.place[k] == Working(w) && s'.workers[w] == Busy(k)
    ensures Paired(c, s')
  {
  }

  /** A step queues an account only while the reader is running. */
  lemma {:induction false} QueueStaysEmpty(c: Config, s: State, a: Step)
    requires Enabled(c, s, a) && s.readerDone && NoneAt(s, Queued)
    ensures NoneAt(Apply(c, s, a), Queued) && Apply(c, s, a).readerDone
  {
    hide Enabled, Apply, Moved;
    MovesOne(c, s, a);
    CountersChange(c, s, a);
    var s' := Apply(c, s, a);
    forall k: nat ensures !IsAt(s', k, Queued) { assert !IsAt(s, k, Queued); }
  }

  lemma {:induction false} ReturnedIsFinal(c: Config, s: State, a: Step)
    requires Flags(c, s) && Enabled(c, s, a) && s.returned
    ensures a == ParentCancel
  {
    hide TopIsNext, All;
    forall w: nat ensures !IsIdle(s, w) && !IsBusy(s, w) {}
  }

  lemma {:induction false} StepKeepsFlags(c: Config, s: State, a: Step)
    requires Inv(c, s) && Enabled(c, s, a)
    ensures Flags(c, Apply(c, s, a))
  {
    hide Enabled, Apply, Ordered, Paired, ErrorFlags, HeapFlag, EndFlags;
    StepKeepsErrorFlags(c, s, a);
    StepKeepsHeapFlag(c, s, a);
    StepKeepsEndFlags(c, s, a);
  }

  lemma {:induction false} StepKeepsErrorFlags(c: Config, s: State, a: Step)
    requires Inv(c, s) && Enabled(c, s, a)
    ensures ErrorFlags(c, Apply(c, s, a))
  {
    MovesOne(c, s, a);
    hide TopIsNext, All, NoneAt, AllExited, HeapFlag, EndFlags, Paired, Ordered;
  }

  lemma {:induction false} StepKeepsHeapFlag(c: Config, s: State, a: Step)
    requires Inv(c, s) && Enabled(c, s, a)
    ensures HeapFlag(Apply(c, s, a))
  {
    hide All, NoneAt, AllExited, ErrorFlags, EndFlags, Paired;
    if a.WriterWait? { NotTop(c, s); }
  }

  /** No buffered account is below the next number, so the next number is buffered exactly when it is
  on top of the heap. */
  lemma {:induction false} NotTop(c: Config, s: State)
    requires Ordered(c, s)
    ensures TopIsNext(s) <==> IsAt(s, s.nextSeq, Buffered)
  {
  }

  lemma {:induction false} StepKeepsEndFlags(c: Config, s: State, a: Step)
    requires Inv(c, s) && Enabled(c, s, a)
    ensures EndFlags(Apply(c, s, a))
  {
    hide Enabled, Apply, Ordered, Paired, ErrorFlags, HeapFlag, NoneAt;
    var s' := Apply(c, s, a);
    CountersChange(c, s, a);
    if s.returned { ReturnedIsFinal(c, s, a); }
    if a == ParentCancel || a == WriterReturn {
      EndingSteps(c, s, a);
      SamePlaces(s, s', Ready);
      SamePlaces(s, s', Queued);
    } else {
      if s.readerDone && NoneAt(s, Queued) { QueueStaysEmpty(c, s, a); }
      ExitsAtEnd(c, s, a);
    }
  }

  /** Cancelling and returning leave places and workers alone, and returning waits for everything. */
  lemma {:induction false} EndingSteps(c: Config, s: State, a: Step)
    requires Enabled(c, s, a) && (a == ParentCancel || a == WriterReturn)
    ensures var s' := Apply(c, s, a);
            && s'.place == s.place && s'.workers == s.workers && s'.readerDone == s.readerDone
            && s'.draining == s.draining
            && (a == WriterReturn ==> s.readerDone && AllExited(s) && !s.draining && NoneAt(s, Ready))
  {
  }

  lemma {:induction false} ExitsAtEnd(c: Config, s: State, a: Step)
    requires Enabled(c, s, a) && EndFlags(s)
    ensures var s' := Apply(c, s, a);
      && (forall w :: 0 <= w < |s'.workers| && s'.workers[w].Exited? ==> s.readerDone && NoneAt(s, Queued))
  {
    hide TopIsNext, All, NoneAt, AllExited;
  }

  lemma {:induction false} StepKeepsInv(c: Config, s: State, a: Step)
    requires Inv(c, s) && Enabled(c, s, a)
    ensures Inv(c, Apply(c, s, a))
  {
    hide Ordered, Paired, Flags, Enabled, Apply;
    StepKeepsOrdered(c, s, a);
    StepKeepsPaired(c, s, a);
    StepKeepsFlags(c, s, a);
  }

  lemma {:induction false} RunKeepsInv(c: Config, steps: seq<Step>)
    requires After(c, steps).Some?
    ensures Inv(c, After(c, steps).value)
  {
    if steps == [] {
      assert Init(c).workers[0] == Idle;
    } else {
      hide Inv, Enabled, Apply;
      RunKeepsInv(c, steps[..|steps| - 1]);
      StepKeepsInv(c, After(c, steps[..|steps| - 1]).value, steps[|steps| - 1]);
    }
  }

  /** In every interleaving the accounts reach the trie in order, each once, without a gap. */
  lemma {:induction false} AppliedInOrder(c: Config, steps: seq<Step>)
    requires After(c, steps).Some?
    ensures After(c, steps).value.applied <= Numbers(|c.accounts|)
  {
    hide After;
    RunKeepsInv(c, steps);
    var s := After(c, steps).value;
    assert Numbers(s.nextSeq) == Numbers(|c.accounts|)[..s.nextSeq];
  }

  /** The call returns a root. */
  ghost predicate Succeeded(s: State) { s.returned && !s.firstErr }

  /** Some worker skipped an account. */
  ghost predicate Drops(steps: seq<Step>) { exists i :: 0 <= i < |steps| && steps[i].WorkerDrop? }

  /** Without an error, accounts are dropped by workers only. */
  ghost predicate DropMatches(s: State, a: Step, s': State) {
    !s'.firstErr ==> !s.firstErr && (NoneAt(s', Dropped) <==> NoneAt(s, Dropped) && !a.WorkerDrop?)
  }

  lemma {:induction false} StepDrops(c: Config, s: State, a: Step)
    requires Inv(c, s) && Enabled(c, s, a)
    ensures DropMatches(s, a, Apply(c, s, a))
  {
    var s' := Apply(c, s, a);
    ErrorStays(c, s, a);
    MovesOne(c, s, a);
    MovedFrom(c, s, a);
    var k := Moved(c, s, a);
    assert a.WorkerDrop? ==> k < |s.place|;
    hide Enabled, Apply, Moved, Inv, TopIsNext;
    if !s'.firstErr {
      if k < |s.place| { assert s'.place[k] == Dropped <==> a.WorkerDrop?; }
      if NoneAt(s, Dropped) && !a.WorkerDrop? {
        forall j: nat ensures !IsAt(s', j, Dropped) { assert !IsAt(s, j, Dropped); }
      }
      if a.WorkerDrop? { assert IsAt(s', k, Dropped); }
      if j: nat :| IsAt(s, j, Dropped) { assert IsAt(s', j, Dropped); }
    }
  }

  /** An error stays, and where there is none the writer has not failed. */
  lemma {:induction false} ErrorStays(c: Config, s: State, a: Step)
    requires Inv(c, s) && Enabled(c, s, a)
    ensures s.firstErr ==> Apply(c, s, a).firstErr
    ensures !Apply(c, s, a).firstErr ==> !a.WriterFail?
    ensures !Apply(c, s, a).firstErr && a.WriterReceive? ==> Apply(c, s, a).place[a.k] == Buffered
  {
    hide TopIsNext, All, NoneAt, AllExited, Ordered, Paired;
  }

  lemma {:induction false} RunDrops(c: Config, steps: seq<Step>)
    requires After(c, steps).Some? && !After(c, steps).value.firstErr
    ensures NoneAt(After(c, steps).value, Dropped) <==> !Drops(steps)
  {
    hide Enabled, Apply, Inv, NoneAt;
    if steps == [] {
      NothingDropped(c);
    } else {
      var init, a := steps[..|steps| - 1], steps[|steps| - 1];
      RunKeepsInv(c, init);
      StepDrops(c, After(c, init).value, a);
      RunDrops(c, init);
      DropsSnoc(init, a);
      assert steps == init + [a];
    }
  }

  lemma {:induction false} NothingDropped(c: Config)
    ensures NoneAt(Init(c), Dropped)
  {
  }

  lemma {:induction false} DropsSnoc(init: seq<Step>, a: Step)
    ensures Drops(init + [a]) <==> Drops(init) || a.WorkerDrop?
  {
    var steps := init + [a];
    if i :| 0 <= i < |init| && init[i].WorkerDrop? { assert steps[i].WorkerDrop?; }
    if a.WorkerDrop? { assert steps[|init|].WorkerDrop?; }
  }

  /** The caller's context is done exactly when the run cancelled it. */
  lemma {:induction false} RunCancels(c: Config, steps: seq<Step>)
    requires After(c, steps).Some?
    ensures After(c, steps).value.parentCancelled <==> ParentCancel in steps
  {
    hide Enabled, Apply;
    if steps != [] {
      var init, a := steps[..|steps| - 1], steps[|steps| - 1];
      RunCancels(c, init);
      CountersChange(c, After(c, init).value, a);
      assert steps == init + [a];
    }
  }

  /** A call that returns no error is complete if and only if no worker skipped an account, which takes a
  cancellation by the caller. Otherwise it applied exactly the accounts before the first skipped one. */
  lemma {:induction false} SuccessIff(c: Config, steps: seq<Step>)
    requires After(c, steps).Some? && Succeeded(After(c, steps).value)
    ensures After(c, steps).value.applied == Numbers(|c.accounts|) <==> !Drops(steps)
    ensures Drops(steps) ==> ParentCancel in steps
    ensures var s := After(c, steps).value;
            Drops(steps) ==> IsAt(s, s.nextSeq, Dropped) && forall k: nat :: IsAt(s, k, Dropped) ==> s.nextSeq <= k
  {
    hide After, Drops;
    RunKeepsInv(c, steps);
    RunDrops(c, steps);
    RunCancels(c, steps);
    var s := After(c, steps).value;
    Leftover(c, s);
    if s.nextSeq < |c.accounts| { assert IsAt(s, s.nextSeq, Dropped); }
    assert |Numbers(s.nextSeq)| == s.nextSeq;
    assert |Numbers(|c.accounts|)| == |c.accounts|;
  }

  lemma {:induction false} Leftover(c: Config, s: State)
    requires Inv(c, s) && Succeeded(s)
    ensures s.nextSeq < |c.accounts| ==> s.place[s.nextSeq] == Dropped
    ensures forall k :: 0 <= k < s.nextSeq ==> s.place[k] == Applied
  {
    if s.nextSeq < |c.accounts| {
      var k := s.nextSeq;
      NoneWorking(c, s, k);
      assert !IsAt(s, k, Ready);
      assert s.workers[0].Exited?;
      assert !IsAt(s, k, Queued);
    }
  }

  lemma {:induction false} NoneWorking(c: Config, s: State, k: nat)
    requires Paired(c, s) && AllExited(s) && k < |s.place|
    ensures !s.place[k].Working?
  {
  }

  /** As long as the caller does not cancel, a call that returns no error applied every account. */
  lemma {:induction false} CompleteUnlessCancelled(c: Config, steps: seq<Step>)
    requires After(c, steps).Some? && Succeeded(After(c, steps).value) && ParentCancel !in steps
    ensures After(c, steps).value.applied == Numbers(|c.accounts|)
  {
    hide After, Succeeded;
    SuccessIff(c, steps);
  }

  // ----- a cancelled call that reports success

  lemma {:induction false} Extend(c: Config, steps: seq<Step>, s: State, a: Step, s': State)
    requires After(c, steps) == Some(s) && Enabled(c, s, a) && s' == Apply(c, s, a)
    ensures After(c, steps + [a]) == Some(s')
  {
    hide Enabled, Apply;
    assert (steps + [a])[..|steps|] == steps;
  }

  lemma {:induction false} AfterNothing(c: Config)
    ensures After(c, []) == Some(Init(c))
  {
  }

  /** One account, one worker: the caller cancels after the reader has finished, the worker skips the
  account, and the call returns the root of an empty trie and no error. */
  lemma {:induction false} SilentLoss(fails: bool) returns (c: Config, steps: seq<Step>)
    ensures c == Config([Account(true, fails)], 0) && After(c, steps).Some?
    ensures var s := After(c, steps).value; Succeeded(s) && s.applied == []
  {
    hide After;
    c := Config([Account(true, fails)], 0);
    AfterNothing(c);
    var s0 := Init(c);
    assert s0.place == [Unread] && s0.workers == [Idle];
    assert All(s0, Queued) == {};
    var s1 := s0.(place := [Queued], sent := 1);
    assert s0.place[0 := Queued] == [Queued];
    Extend(c, [], s0, ReaderSend, s1);
    var s2 := s1.(readerDone := true);
    Extend(c, [] + [ReaderSend], s1, ReaderFinish, s2);
    var s3 := s2.(parentCancelled := true, cancelled := true);
    steps := [] + [ReaderSend] + [ReaderFinish];
    Extend(c, steps, s2, ParentCancel, s3);
    steps := SilentTail(c, steps + [ParentCancel], s3);
  }

  lemma {:induction false} SilentTail(c: Config, steps: seq<Step>, s3: State) returns (r: seq<Step>)
    requires |c.accounts| == 1 && After(c, steps) == Some(s3)
    requires s3 == State([Queued], 1, true, [Idle], false, 0, [], false, true, true, false, false)
    ensures After(c, r).Some?
    ensures var s := After(c, r).value; Succeeded(s) && s.applied == []
  {
    hide After;
    var s4 := s3.(workers := [Busy(0)], place := [Working(0)]);
    assert s3.workers[0 := Busy(0)] == [Busy(0)] && s3.place[0 := Working(0)] == [Working(0)];
    Extend(c, steps, s3, WorkerTake(0, 0), s4);
    var s5 := s4.(workers := [Idle], place := [Dropped]);
    assert s4.workers[0 := Idle] == [Idle] && s4.place[0 := Dropped] == [Dropped];
    Extend(c, steps + [WorkerTake(0, 0)], s4, WorkerDrop(0), s5);
    r := steps + [WorkerTake(0, 0)] + [WorkerDrop(0)];
    var s6 := s5.(workers := [Exited]);
    assert s5.workers[0 := Exited] == [Exited];
    assert All(s5, Queued) == {};
    Extend(c, r, s5, WorkerExit(0, false), s6);
    assert All(s6, Ready) == {};
    Extend(c, r + [WorkerExit(0, false)], s6, WriterReturn, s6.(returned := true));
    r := r + [WorkerExit(0, false)] + [WriterReturn];
  }

  // ----- progress and termination

  ghost predicate CanMove(c: Config, s: State) {
    exists a: Step :: Enabled(c, s, a) && !a.ParentCancel? && !a.ReaderIterFail?
  }

  /** The pipeline never gets stuck: until the call returns, some stage can take a step. */
  lemma {:induction false} Progress(c: Config, s: State) returns (a: Step)
    requires Inv(c, s) && !s.returned
    ensures Enabled(c, s, a) && !a.ParentCancel? && !a.ReaderIterFail?
  {
    if s.draining {
      a := if !TopIsNext(s) then WriterWait else if c.accounts[s.nextSeq].fails then WriterFail else WriterApply;
    } else if k: nat :| IsAt(s, k, Ready) {
      a := WriterReceive(k);
    } else {
      a := ProgressUpstream(c, s);
    }
  }

  lemma {:induction false} ProgressUpstream(c: Config, s: State) returns (a: Step)
    requires Inv(c, s) && !s.returned && !s.draining && NoneAt(s, Ready)
    ensures Enabled(c, s, a) && !a.ParentCancel? && !a.ReaderIterFail?
  {
    AllNone(s, Ready);
    if w: nat :| IsBusy(s, w) {
      a := WorkerSend(w);
    } else if w: nat :| IsIdle(s, w) {
      if k: nat :| IsAt(s, k, Queued) {
        a := WorkerTake(w, k);
      } else {
        AllNone(s, Queued);
        if s.readerDone {
          a := WorkerExit(w, false);
        } else if s.sent == |c.accounts| {
          a := ReaderFinish;
        } else {
          a := if c.accounts[s.sent].decodes then ReaderSend else ReaderDecodeFail;
        }
      }
    } else {
      forall i | 0 <= i < |s.workers| ensures s.workers[i].Exited? {
        assert !IsBusy(s, i) && !IsIdle(s, i);
      }
      assert s.workers[0].Exited?;
      a := WriterReturn;
    }
  }

  function PlaceWeight(p: Place): nat {
    match p
    case Unread => 6
    case Queued => 5
    case Working(_) => 4
    case Ready => 3
    case Buffered => 1
    case Applied => 0
    case Dropped => 0
  }

  function PlacesWeight(ps: seq<Place>): nat {
    if ps == [] then 0 else PlacesWeight(ps[..|ps| - 1]) + PlaceWeight(ps[|ps| - 1])
  }

  lemma {:induction false} PlaceUpdate(ps: seq<Place>, k: nat, p: Place)
    requires k < |ps|
    ensures PlacesWeight(ps[k := p]) + PlaceWeight(ps[k]) == PlacesWeight(ps) + PlaceWeight(p)
  {
    hide PlaceWeight;
    if k < |ps| - 1 {
      PlaceUpdate(ps[..|ps| - 1], k, p);
      assert ps[k := p][..|ps| - 1] == ps[..|ps| - 1][k := p];
    } else {
      assert ps[k := p][..|ps| - 1] == ps[..|ps| - 1];
    }
  }

  function Running(ws: seq<Worker>): nat {
    if ws == [] then 0 else Running(ws[..|ws| - 1]) + if ws[|ws| - 1].Exited? then 0 else 1
  }

  function One(b: bool): nat { if b then 1 else 0 }

  lemma {:induction false} RunningUpdate(ws: seq<Worker>, w: nat, x: Worker)
    requires w < |ws|
    ensures Running(ws[w := x]) + One(!ws[w].Exited?) == Running(ws) + One(!x.Exited?)
  {
    if w < |ws| - 1 {
      RunningUpdate(ws[..|ws| - 1], w, x);
      assert ws[w := x][..|ws| - 1] == ws[..|ws| - 1][w := x];
    } else {
      assert ws[w := x][..|ws| - 1] == ws[..|ws| - 1];
    }
  }

  function Measure(s: State): nat {
    PlacesWeight(s.place) + Running(s.workers) + One(!s.readerDone) + One(s.draining) + One(!s.returned) +
        One(!s.parentCancelled)
  }

  lemma {:induction false} StepDecreases(c: Config, s: State, a: Step)
    requires Inv(c, s) && Enabled(c, s, a)
    ensures Measure(Apply(c, s, a)) < Measure(s)
  {
    hide Enabled, Apply, Measure, Inv;
    if IsWorkerStep(a) {
      WorkerDecreases(c, s, a);
    } else if IsReaderStep(a) {
      ReaderDecreases(c, s, a);
    } else {
      WriterDecreases(c, s, a);
    }
  }

  lemma {:induction false} WorkerDecreases(c: Config, s: State, a: Step)
    requires Inv(c, s) && Enabled(c, s, a) && IsWorkerStep(a)
    ensures Measure(Apply(c, s, a)) < Measure(s)
  {
    hide ReaderEnabled, ReaderMove, WriterEnabled, WriterMove, PlacesWeight, Running, TopIsNext, All, NoneAt,
      AllExited, Ordered, Flags;
    var s' := Apply(c, s, a);
    RunningUpdate(s.workers, a.w, s'.workers[a.w]);
    match a
    case WorkerTake(w, k) => PlaceUpdate(s.place, k, Working(w));
    case WorkerSend(w) => PlaceUpdate(s.place, s.workers[w].k, Ready);
    case WorkerDrop(w) => PlaceUpdate(s.place, s.workers[w].k, Dropped);
    case WorkerExit(_, _) =>
  }

  lemma {:induction false} ReaderDecreases(c: Config, s: State, a: Step)
    requires Inv(c, s) && Enabled(c, s, a) && IsReaderStep(a)
    ensures Measure(Apply(c, s, a)) < Measure(s)
  {
    hide WorkerEnabled, WorkerMove, WriterEnabled, WriterMove, PlacesWeight, Running, TopIsNext, All, NoneAt,
      AllExited, Paired, Flags;
    if a.ReaderSend? { PlaceUpdate(s.place, s.sent, Queued); }
  }

  lemma {:induction false} WriterDecreases(c: Config, s: State, a: Step)
    requires Inv(c, s) && Enabled(c, s, a) && !IsWorkerStep(a) && !IsReaderStep(a)
    ensures Measure(Apply(c, s, a)) < Measure(s)
  {
    hide ReaderEnabled, ReaderMove, WorkerEnabled, WorkerMove, PlacesWeight, Running, All, NoneAt, AllExited,
      Paired, Flags;
    match a
    case WriterReceive(k) => PlaceUpdate(s.place, k, if s.writerFailed then Dropped else Buffered);
    case WriterApply => PlaceUpdate(s.place, s.nextSeq, Applied);
    case WriterFail => PlaceUpdate(s.place, s.nextSeq, Dropped);
    case _ =>
  }

  /** Every run is finite. */
  lemma {:induction false} RunsAreBounded(c: Config, steps: seq<Step>)
    requires After(c, steps).Some?
    ensures Measure(After(c, steps).value) + |steps| <= Measure(Init(c))
  {
    hide Measure, Enabled, Apply, Inv;
    if steps != [] {
      var p := After(c, steps[..|steps| - 1]).value;
      RunsAreBounded(c, steps[..|steps| - 1]);
      RunKeepsInv(c, steps[..|steps| - 1]);
      StepDecreases(c, p, steps[|steps| - 1]);
    }
  }

  /** A run that can go no further has returned. */
  lemma {:induction false} NeverStuck(c: Config, steps: seq<Step>)
    requires After(c, steps).Some? && !CanMove(c, After(c, steps).value)
    ensures After(c, steps).value.returned
  {
    hide After, Inv, Enabled;
    RunKeepsInv(c, steps);
    var s := After(c, steps).value;
    if !s.returned { var a := Progress(c, s); }
  }
}
