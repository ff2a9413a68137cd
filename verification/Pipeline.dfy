/** The four-stage pipeline as a step system: reader, workers, resequencer and builder, joined by bounded
channels, with cancellation and worker panics. Every interleaving is a sequence of steps. */
module Pipeline {
  import opened Wrappers
  import opened Stems
  import opened TreeSpec
  import opened BuilderSteps
  import opened StemHash
  import opened StackTrie
  import opened TrieRun

  const MAX_IN_FLIGHT: nat := 64
  const BUILDER_CAP: nat := 128

  /** The stems the reader will dispatch and the number of workers, at least one. */
  datatype Config = Config(work: seq<StemWork>, extraWorkers: nat) {
    function NumWorkers(): nat { extraWorkers + 1 }
    function ChannelCap(): nat { 2 * NumWorkers() }
  }

  datatype Result = Result(seqNum: nat, item: Item)

  datatype Worker = Idle | Hashing(seqNum: nat) | Releasing | Exited

  datatype State = State(
    sent: nat,                 // stems handed to workCh
    lastChecked: bool,         // the reader saw no cancellation before its last stem
    holdsSlot: bool,           // the reader may send its next stem
    skipped: bool,             // the last stem was sent without a semaphore slot
    readerDone: bool,          // workCh is closed
    slots: nat,                // semaphore slots taken
    workCh: seq<nat>,
    workers: seq<Worker>,
    resultCh: seq<Result>,
    pending: map<nat, Item>,   // the resequencer's reorder buffer
    nextSeq: nat,
    forwarding: bool,          // the resequencer is draining its buffer
    reseqDone: bool,           // builderCh is closed
    builderCh: seq<Item>,
    fed: seq<Item>,            // what the builder was fed
    builderDone: bool,
    cancelled: bool,
    errored: bool)

  datatype Step =
    | ReaderCheckLast | ReaderAcquire | ReaderSkip | ReaderSend | ReaderClose
    | WorkerTake(w: nat) | WorkerSend(w: nat) | WorkerRelease(w: nat) | WorkerAbort(w: nat) | WorkerPanic(w: nat)
    | WorkerExit(w: nat)
    | ReseqReceive | ReseqForward | ReseqNext | ReseqAbort | ReseqClose
    | BuilderFeed | BuilderFinish
    | Cancel

  function Init(c: Config): State {
    State(0, false, false, false, false, 0, [], seq(c.NumWorkers(), _ => Idle), [], map[], 0, false, false, [], [],
        false, false, false)
  }

  /** What a worker makes of stem k. */
  function ItemOf(c: Config, k: nat): Item
    requires k < |c.work|
  {
    Item(c.work[k].stem, StemNodeHash(c.work[k].stem, c.work[k].entries), c.work[k].entries)
  }

  predicate AllExited(s: State) {
    forall i :: 0 <= i < |s.workers| ==> s.workers[i].Exited?
  }

  predicate IsLast(c: Config, s: State) {
    s.sent + 1 == |c.work|
  }

  predicate WorkerIs(s: State, w: nat, x: Worker) {
    w < |s.workers| && s.workers[w] == x
  }

  predicate WorkerHashing(s: State, w: nat) {
    w < |s.workers| && s.workers[w].Hashing?
  }

  predicate IsReaderStep(a: Step) {
    a.ReaderCheckLast? || a.ReaderAcquire? || a.ReaderSkip? || a.ReaderSend? || a.ReaderClose?
  }

  predicate IsWorkerStep(a: Step) {
    a.WorkerTake? || a.WorkerSend? || a.WorkerRelease? || a.WorkerAbort? || a.WorkerPanic? || a.WorkerExit?
  }

  predicate ReaderEnabled(c: Config, s: State, a: Step) {
    match a
    case ReaderCheckLast => !s.readerDone && IsLast(c, s) && !s.lastChecked && !s.cancelled
    case ReaderAcquire =>
      !s.readerDone && s.sent < |c.work| && !s.holdsSlot && (IsLast(c, s) ==> s.lastChecked) && s.slots < MAX_IN_FLIGHT
    case ReaderSkip =>
      !s.readerDone && IsLast(c, s) && s.lastChecked && !s.holdsSlot && s.cancelled
    case ReaderSend => !s.readerDone && s.sent < |c.work| && s.holdsSlot && |s.workCh| < c.ChannelCap()
    case ReaderClose => !s.readerDone && (s.sent == |c.work| || s.cancelled)
    case _ => false
  }

  predicate WorkerEnabled(c: Config, s: State, a: Step) {
    match a
    case WorkerTake(w) => WorkerIs(s, w, Idle) && s.workCh != []
    case WorkerSend(w) => WorkerHashing(s, w) && s.workers[w].seqNum < |c.work| && |s.resultCh| < c.ChannelCap()
    case WorkerRelease(w) => WorkerIs(s, w, Releasing) && s.slots > 0
    case WorkerAbort(w) => WorkerHashing(s, w) && s.cancelled
    case WorkerPanic(w) => WorkerHashing(s, w)
    case WorkerExit(w) => WorkerIs(s, w, Idle) && s.workCh == [] && s.readerDone
    case _ => false
  }

  predicate OutputEnabled(s: State, a: Step) {
    match a
    case ReseqReceive => !s.reseqDone && !s.forwarding && s.resultCh != []
    case ReseqForward => !s.reseqDone && s.forwarding && s.nextSeq in s.pending && |s.builderCh| < BUILDER_CAP
    case ReseqNext => !s.reseqDone && s.forwarding && s.nextSeq !in s.pending
    case ReseqAbort => !s.reseqDone && s.forwarding && s.nextSeq in s.pending && s.cancelled
    case ReseqClose => !s.reseqDone && !s.forwarding && s.resultCh == [] && AllExited(s)
    case BuilderFeed => s.builderCh != []
    case BuilderFinish => s.builderCh == [] && s.reseqDone && !s.builderDone
    case Cancel => !s.cancelled
    case _ => false
  }

  predicate Enabled(c: Config, s: State, a: Step) {
    if IsReaderStep(a) then ReaderEnabled(c, s, a)
    else if IsWorkerStep(a) then WorkerEnabled(c, s, a)
    else OutputEnabled(s, a)
  }

  function ReaderApply(c: Config, s: State, a: Step): State
    requires ReaderEnabled(c, s, a)
  {
    match a
    case ReaderCheckLast => s.(lastChecked := true)
    case ReaderAcquire => s.(holdsSlot := true, slots := s.slots + 1)
    case ReaderSkip => s.(holdsSlot := true, skipped := true)
    case ReaderSend => s.(holdsSlot := false, workCh := s.workCh + [s.sent], sent := s.sent + 1)
    case ReaderClose => s.(readerDone := true)
  }

  function WorkerApply(c: Config, s: State, a: Step): State
    requires WorkerEnabled(c, s, a)
  {
    match a
    case WorkerTake(w) => s.(workers := s.workers[w := Hashing(s.workCh[0])], workCh := s.workCh[1..])
    case WorkerSend(w) =>
      var k := s.workers[w].seqNum;
      s.(workers := s.workers[w := Releasing], resultCh := s.resultCh + [Result(k, ItemOf(c, k))])
    case WorkerRelease(w) => s.(workers := s.workers[w := Idle], slots := s.slots - 1)
    case WorkerAbort(w) => s.(workers := s.workers[w := Exited])
    case WorkerPanic(w) => s.(workers := s.workers[w := Exited], cancelled := true, errored := true)
    case WorkerExit(w) => s.(workers := s.workers[w := Exited])
  }

  function OutputApply(s: State, a: Step): State
    requires OutputEnabled(s, a)
  {
    match a
    case ReseqReceive =>
      s.(pending := s.pending[s.resultCh[0].seqNum := s.resultCh[0].item], resultCh := s.resultCh[1..],
          forwarding := true)
    case ReseqForward =>
      s.(builderCh := s.builderCh + [s.pending[s.nextSeq]], pending := s.pending - {s.nextSeq},
          nextSeq := s.nextSeq + 1)
    case ReseqNext => s.(forwarding := false)
    case ReseqAbort => s.(reseqDone := true, errored := true)
    case ReseqClose => s.(reseqDone := true)
    case BuilderFeed => s.(fed := s.fed + [s.builderCh[0]], builderCh := s.builderCh[1..])
    case BuilderFinish => s.(builderDone := true)
    case Cancel => s.(cancelled := true)
  }

  function Apply(c: Config, s: State, a: Step): State
    requires Enabled(c, s, a)
  {
    if IsReaderStep(a) then ReaderApply(c, s, a)
    else if IsWorkerStep(a) then WorkerApply(c, s, a)
    else OutputApply(s, a)
  }

  /** All goroutines have returned. */
  predicate Terminal(s: State) {
    s.readerDone && AllExited(s) && s.reseqDone && s.builderDone
  }

  /** The call returns a root rather than an error. */
  predicate Succeeded(s: State) {
    Terminal(s) && !s.errored && !s.cancelled
  }

  /** The state after a run, if every step of it is enabled where it is taken. */
  function After(c: Config, steps: seq<Step>): Option<State> {
    if steps == [] then Some(Init(c)) else
      var p := After(c, steps[..|steps| - 1]);
      if p.Some? && Enabled(c, p.value, steps[|steps| - 1]) then Some(Apply(c, p.value, steps[|steps| - 1])) else None
  }

  // ----- what each kind of step changes

  function One(b: bool): nat { if b then 1 else 0 }

  /** Steps behind the reorder buffer, and the cancellation. */
  predicate IsOutputStep(a: Step) {
    !IsWorkerStep(a) && !IsReaderStep(a) && !a.ReseqReceive? && !a.ReseqForward?
  }

  predicate SameReader(s: State, s': State) {
    s'.sent == s.sent && s'.holdsSlot == s.holdsSlot && s'.lastChecked == s.lastChecked && s'.readerDone == s.readerDone
  }

  predicate SameOutput(s: State, s': State) {
    && s'.pending == s.pending && s'.nextSeq == s.nextSeq && s'.forwarding == s.forwarding
    && s'.reseqDone == s.reseqDone && s'.builderCh == s.builderCh && s'.builderDone == s.builderDone
  }

  /** What is left for the reader. */
  function ReaderWork(c: Config, s: State): int {
    9 * (|c.work| - s.sent) - One(s.holdsSlot) + One(!s.lastChecked) + One(!s.readerDone)
  }

  function WorkerWeight(x: Worker): nat {
    match x
    case Idle => 1
    case Hashing(_) => 7
    case Releasing => 2
    case Exited => 0
  }

  /** A reader step hands on at most one stem and leaves everything behind workCh alone. */
  predicate ReaderEffect(c: Config, s: State, a: Step, s': State) {
    && s'.workers == s.workers && s'.resultCh == s.resultCh && SameOutput(s, s') && s'.cancelled == s.cancelled
    && s'.workCh == (if a.ReaderSend? then s.workCh + [s.sent] else s.workCh)
    && ReaderWork(c, s') + 7 * One(a.ReaderSend?) < ReaderWork(c, s)
  }

  lemma {:induction false} ReaderEffects(c: Config, s: State, a: Step)
    requires IsReaderStep(a) && Enabled(c, s, a)
    ensures ReaderEffect(c, s, a, Apply(c, s, a))
  {
    hide WorkerEnabled, OutputEnabled, WorkerApply, OutputApply;
  }

  /** A worker step changes one worker and the two channels at its sides. */
  predicate WorkerEffect(s: State, a: Step, s': State)
    requires IsWorkerStep(a)
  {
    && a.w < |s.workers| == |s'.workers| && s'.workers == s.workers[a.w := s'.workers[a.w]]
    && SameReader(s, s') && SameOutput(s, s') && (s.cancelled ==> s'.cancelled)
    && WorkerWeight(s'.workers[a.w]) + 7 * |s'.workCh| + 4 * |s'.resultCh|
       < WorkerWeight(s.workers[a.w]) + 7 * |s.workCh| + 4 * |s.resultCh|
  }

  lemma {:induction false} WorkerEffects(c: Config, s: State, a: Step)
    requires IsWorkerStep(a) && Enabled(c, s, a)
    ensures WorkerEffect(s, a, Apply(c, s, a))
  {
    hide ItemOf, ReaderEnabled, OutputEnabled, ReaderApply, OutputApply;
  }

  /** What is left behind the reorder buffer. */
  function TailWork(s: State): int {
    One(s.forwarding) + One(!s.reseqDone) + |s.builderCh| + One(!s.builderDone)
  }

  /** An output step leaves the reader, the workers and the reorder buffer alone. */
  predicate OutputEffect(s: State, s': State) {
    && SameReader(s, s') && s'.workCh == s.workCh && s'.workers == s.workers && s'.resultCh == s.resultCh
    && s'.pending == s.pending && s'.nextSeq == s.nextSeq
    && TailWork(s') + One(!s'.cancelled) < TailWork(s) + One(!s.cancelled)
  }

  lemma {:induction false} OutputEffects(c: Config, s: State, a: Step)
    requires IsOutputStep(a) && Enabled(c, s, a)
    ensures OutputEffect(s, Apply(c, s, a))
  {
    hide ReaderEnabled, WorkerEnabled, ReaderApply, WorkerApply, AllExited;
  }

  // ----- safety

  /** Stem k is somewhere in the pipeline or has passed the resequencer. */
  ghost predicate Located(s: State, k: nat) {
    || k < s.nextSeq
    || k in s.pending
    || (exists i :: 0 <= i < |s.resultCh| && s.resultCh[i].seqNum == k)
    || (exists i :: 0 <= i < |s.workers| && s.workers[i] == Hashing(k))
    || k in s.workCh
  }

  /** Numbers in flight are valid, and results carry the item of their number. */
  ghost predicate WellNumbered(c: Config, s: State) {
    && s.sent <= |c.work| && s.nextSeq <= |c.work|
    && |s.workers| == c.NumWorkers()
    && (forall i :: 0 <= i < |s.workCh| ==> s.workCh[i] < s.sent)
    && (forall i :: 0 <= i < |s.workers| && s.workers[i].Hashing? ==> s.workers[i].seqNum < s.sent)
    && (forall i :: 0 <= i < |s.resultCh| ==>
      s.resultCh[i].seqNum < |c.work| && s.resultCh[i].item == ItemOf(c, s.resultCh[i].seqNum))
    && (forall k :: k in s.pending ==> k < |c.work| && s.pending[k] == ItemOf(c, k))
  }

  /** The builder has been fed, or is about to be fed, exactly the first nextSeq items in order. */
  ghost predicate InOrder(c: Config, s: State) {
    && s.nextSeq <= |c.work| && s.fed + s.builderCh == Hashed(c.work)[..s.nextSeq]
    && (s.builderDone ==> s.reseqDone && s.builderCh == [])
  }

  /** Without cancellation nothing is lost. */
  ghost predicate NothingLost(c: Config, s: State) {
    !s.cancelled ==>
      && (forall k: nat :: k < s.sent ==> Located(s, k))
      && (s.readerDone ==> s.sent == |c.work|)
      && (s.reseqDone ==> AllExited(s) && s.resultCh == [] && s.readerDone && s.workCh == [] && s.nextSeq !in s.pending)
      && (!s.forwarding ==> s.nextSeq !in s.pending)
      && (AllExited(s) ==> s.readerDone && s.workCh == [])
  }

  ghost predicate Inv(c: Config, s: State) {
    WellNumbered(c, s) && InOrder(c, s) && NothingLost(c, s)
  }

  lemma {:induction false} InitInv(c: Config)
    ensures Inv(c, Init(c))
  {
    assert Init(c).workers[0] == Idle;
  }

  lemma {:induction false} StepKeepsNumbers(c: Config, s: State, a: Step)
    requires WellNumbered(c, s) && Enabled(c, s, a) && (a.ReseqForward? ==> s.nextSeq < |c.work|)
    ensures WellNumbered(c, Apply(c, s, a))
  {
    hide ItemOf, WellNumbered, Enabled, Apply;
    if IsWorkerStep(a) { WorkerKeepsNumbers(c, s, a); } else { OthersKeepNumbers(c, s, a); }
  }

  lemma {:induction false} WorkerKeepsNumbers(c: Config, s: State, a: Step)
    requires IsWorkerStep(a) && WellNumbered(c, s) && Enabled(c, s, a)
    ensures WellNumbered(c, Apply(c, s, a))
  {
    hide ReaderEnabled, ReaderApply, OutputEnabled, OutputApply, ItemOf;
  }

  lemma {:induction false} OthersKeepNumbers(c: Config, s: State, a: Step)
    requires !IsWorkerStep(a) && WellNumbered(c, s) && Enabled(c, s, a) && (a.ReseqForward? ==> s.nextSeq < |c.work|)
    ensures WellNumbered(c, Apply(c, s, a))
  {
    hide ItemOf;
  }

  lemma {:induction false} StepKeepsOrder(c: Config, s: State, a: Step)
    requires WellNumbered(c, s) && InOrder(c, s) && Enabled(c, s, a)
    ensures InOrder(c, Apply(c, s, a)) && (a.ReseqForward? ==> s.nextSeq < |c.work|)
  {
    hide Enabled, Apply, WellNumbered, InOrder;
    if a.ReseqForward? {
      ForwardKeepsOrder(c, s);
    } else if a.BuilderFeed? {
      FeedKeepsOrder(c, s);
    } else {
      OthersKeepOrder(c, s, a);
    }
  }

  lemma {:induction false} ForwardKeepsOrder(c: Config, s: State)
    requires WellNumbered(c, s) && InOrder(c, s) && Enabled(c, s, ReseqForward)
    ensures InOrder(c, Apply(c, s, ReseqForward)) && s.nextSeq < |c.work|
  {
    hide StemHash.StemNodeHash;
    var h := Hashed(c.work);
    assert h[..s.nextSeq + 1] == h[..s.nextSeq] + [h[s.nextSeq]];
    assert s.pending[s.nextSeq] == h[s.nextSeq];
    assert s.fed + (s.builderCh + [s.pending[s.nextSeq]]) == (s.fed + s.builderCh) + [s.pending[s.nextSeq]];
  }

  lemma {:induction false} FeedKeepsOrder(c: Config, s: State)
    requires InOrder(c, s) && Enabled(c, s, BuilderFeed)
    ensures InOrder(c, Apply(c, s, BuilderFeed))
  {
    hide Hashed;
    assert (s.fed + [s.builderCh[0]]) + s.builderCh[1..] == s.fed + s.builderCh;
  }

  lemma {:induction false} OthersKeepOrder(c: Config, s: State, a: Step)
    requires InOrder(c, s) && Enabled(c, s, a) && !a.ReseqForward? && !a.BuilderFeed?
    ensures InOrder(c, Apply(c, s, a))
  {
    hide Hashed, ItemOf;
  }

  /** No step without cancellation loses a stem. */
  lemma {:induction false} StepKeepsLocated(c: Config, s: State, a: Step, k: nat)
    requires WellNumbered(c, s) && Enabled(c, s, a) && !Apply(c, s, a).cancelled
    requires Located(s, k) || (a.ReaderSend? && k == s.sent)
    ensures Located(Apply(c, s, a), k)
  {
    hide Enabled, Apply, Located, WellNumbered;
    if a.WorkerTake? || a.WorkerSend? {
      BusyKeepsLocated(c, s, a, k);
    } else if IsWorkerStep(a) {
      WorkerKeepsLocated(c, s, a, k);
    } else if IsReaderStep(a) {
      ReaderKeepsLocated(c, s, a, k);
    } else if a.ReseqReceive? || a.ReseqForward? {
      BufferKeepsLocated(c, s, a, k);
    } else {
      OthersKeepLocated(c, s, a, k);
    }
  }

  lemma {:induction false} BusyKeepsLocated(c: Config, s: State, a: Step, k: nat)
    requires (a.WorkerTake? || a.WorkerSend?) && Enabled(c, s, a) && Located(s, k)
    ensures Located(Apply(c, s, a), k)
  {
    hide ReaderEnabled, ReaderApply, OutputEnabled, OutputApply, ItemOf, Located;
    if a.WorkerTake? { TakeKeeps(s, Apply(c, s, a), a.w, k); } else { SendKeeps(c, s, Apply(c, s, a), a.w, k); }
  }

  lemma {:induction false} WorkerKeepsLocated(c: Config, s: State, a: Step, k: nat)
    requires IsWorkerStep(a) && !a.WorkerTake? && !a.WorkerSend? && Enabled(c, s, a) && Located(s, k)
    requires !Apply(c, s, a).cancelled
    ensures Located(Apply(c, s, a), k)
  {
    hide ReaderEnabled, ReaderApply, OutputEnabled, OutputApply, ItemOf, Located;
    OtherWorkersKept(s, Apply(c, s, a), a.w, k);
  }

  lemma {:induction false} ReaderKeepsLocated(c: Config, s: State, a: Step, k: nat)
    requires IsReaderStep(a) && Enabled(c, s, a) && (Located(s, k) || (a.ReaderSend? && k == s.sent))
    ensures Located(Apply(c, s, a), k)
  {
    hide Enabled, Apply, Located, ReaderWork;
    var s' := Apply(c, s, a);
    ReaderEffects(c, s, a);
    LocatedKept(s, s', k);
    if a.ReaderSend? && k == s.sent { SentIsLocated(s, s'); }
  }

  lemma {:induction false} SentIsLocated(s: State, s': State)
    requires s'.workCh == s.workCh + [s.sent]
    ensures Located(s', s.sent)
  {
    assert s'.workCh[|s.workCh|] == s.sent;
  }

  lemma {:induction false} BufferKeepsLocated(c: Config, s: State, a: Step, k: nat)
    requires (a.ReseqReceive? || a.ReseqForward?) && Enabled(c, s, a) && Located(s, k)
    ensures Located(Apply(c, s, a), k)
  {
    hide ReaderEnabled, ReaderApply, WorkerEnabled, WorkerApply, ItemOf;
    if a.ReseqReceive? { ReceiveKeeps(s, Apply(c, s, a), k); }
  }

  lemma {:induction false} OthersKeepLocated(c: Config, s: State, a: Step, k: nat)
    requires IsOutputStep(a) && Enabled(c, s, a) && Located(s, k)
    ensures Located(Apply(c, s, a), k)
  {
    hide Enabled, Apply, Located, IsOutputStep;
    OutputEffects(c, s, a);
    LocatedKept(s, Apply(c, s, a), k);
  }

  lemma {:induction false} LocatedKept(s: State, s': State, k: nat)
    requires s'.nextSeq == s.nextSeq && s'.pending == s.pending && s'.resultCh == s.resultCh &&
        s'.workers == s.workers && s.workCh <= s'.workCh
    ensures Located(s, k) ==> Located(s', k)
  {
    if k in s.workCh {
      var i :| 0 <= i < |s.workCh| && s.workCh[i] == k;
      assert s'.workCh[i] == k;
    }
  }

  lemma {:induction false} OtherWorkersKept(s: State, s': State, w: nat, k: nat)
    requires |s'.workers| == |s.workers| && w < |s.workers| && !s.workers[w].Hashing? &&
        s'.workers == s.workers[w := s'.workers[w]]
    requires s'.nextSeq == s.nextSeq && s'.pending == s.pending && s'.resultCh == s.resultCh && s'.workCh == s.workCh
    ensures Located(s, k) ==> Located(s', k)
  {
    if i :| 0 <= i < |s.workers| && s.workers[i] == Hashing(k) { assert s'.workers[i] == Hashing(k); }
  }

  lemma {:induction false} TakeKeeps(s: State, s': State, w: nat, k: nat)
    requires WorkerIs(s, w, Idle) && s.workCh != [] &&
        s' == s.(workers := s.workers[w := Hashing(s.workCh[0])], workCh := s.workCh[1..])
    ensures Located(s, k) ==> Located(s', k)
  {
    if i :| 0 <= i < |s.workers| && s.workers[i] == Hashing(k) { assert s'.workers[i] == Hashing(k); }
    if k in s.workCh {
      var i :| 0 <= i < |s.workCh| && s.workCh[i] == k;
      if i == 0 { assert s'.workers[w] == Hashing(k); } else { assert s'.workCh[i - 1] == k; }
    }
  }

  lemma {:induction false} SendKeeps(c: Config, s: State, s': State, w: nat, k: nat)
    requires WorkerHashing(s, w) && s.workers[w].seqNum < |c.work|
    requires s' == s.(workers := s.workers[w := Releasing],
                      resultCh := s.resultCh + [Result(s.workers[w].seqNum, ItemOf(c, s.workers[w].seqNum))])
    ensures Located(s, k) ==> Located(s', k)
  {
    hide ItemOf;
    if i :| 0 <= i < |s.workers| && s.workers[i] == Hashing(k) {
      if i == w { assert s'.resultCh[|s.resultCh|].seqNum == k; } else { assert s'.workers[i] == Hashing(k); }
    }
    if i :| 0 <= i < |s.resultCh| && s.resultCh[i].seqNum == k { assert s'.resultCh[i].seqNum == k; }
  }

  lemma {:induction false} ReceiveKeeps(s: State, s': State, k: nat)
    requires s.resultCh != []
    requires s' == s.(pending := s.pending[s.resultCh[0].seqNum := s.resultCh[0].item], resultCh := s.resultCh[1..],
        forwarding := true)
    ensures Located(s, k) ==> Located(s', k)
  {
    if i :| 0 <= i < |s.resultCh| && s.resultCh[i].seqNum == k {
      if i > 0 { assert s'.resultCh[i - 1].seqNum == k; }
    }
  }

  lemma {:induction false} StepKeepsAll(c: Config, s: State, a: Step)
    requires WellNumbered(c, s) && NothingLost(c, s) && Enabled(c, s, a)
    ensures NothingLost(c, Apply(c, s, a))
  {
    hide ItemOf, Located, WellNumbered;
    var s' := Apply(c, s, a);
    if !s'.cancelled {
      forall k: nat | k < s'.sent ensures Located(s', k) { StepKeepsLocated(c, s, a, k); }
      StillRunning(c, s, a);
    }
  }

  /** Without cancellation a worker exits only once the input is closed and drained. */
  lemma {:induction false} StillRunning(c: Config, s: State, a: Step)
    requires NothingLost(c, s) && Enabled(c, s, a) && !Apply(c, s, a).cancelled
    ensures AllExited(Apply(c, s, a)) ==> Apply(c, s, a).readerDone && Apply(c, s, a).workCh == []
    ensures AllExited(s) ==> AllExited(Apply(c, s, a)) && Apply(c, s, a).workCh == s.workCh && Apply(c, s, a).readerDone
  {
    hide ItemOf, Located;
    var s' := Apply(c, s, a);
    if a.WorkerTake? || a.WorkerSend? || a.WorkerRelease? {
      assert !s'.workers[a.w].Exited? && !s.workers[a.w].Exited?;
    }
    if a.WorkerExit? { assert !s.workers[a.w].Exited?; }
  }

  lemma {:induction false} StepKeepsInv(c: Config, s: State, a: Step)
    requires Inv(c, s) && Enabled(c, s, a)
    ensures Inv(c, Apply(c, s, a))
  {
    hide WellNumbered, InOrder, NothingLost;
    StepKeepsOrder(c, s, a);
    StepKeepsNumbers(c, s, a);
    StepKeepsAll(c, s, a);
  }

  lemma {:induction false} RunKeepsInv(c: Config, steps: seq<Step>)
    requires After(c, steps).Some?
    ensures Inv(c, After(c, steps).value)
  {
    hide Inv;
    if steps == [] {
      InitInv(c);
    } else {
      RunKeepsInv(c, steps[..|steps| - 1]);
      StepKeepsInv(c, After(c, steps[..|steps| - 1]).value, steps[|steps| - 1]);
    }
  }

  /** In every interleaving, whatever the builder has been fed so far is a prefix of the stems in
  sorted order; if the call succeeds it is all of them, each exactly once. */
  lemma {:induction false} FedInOrder(c: Config, steps: seq<Step>)
    requires After(c, steps).Some?
    ensures var s := After(c, steps).value; s.fed <= Hashed(c.work)
    ensures var s := After(c, steps).value; Succeeded(s) ==> s.fed == Hashed(c.work)
  {
    hide StemHash.StemNodeHash, After, ItemOf;
    RunKeepsInv(c, steps);
    var s := After(c, steps).value;
    var h := Hashed(c.work);
    assert s.fed <= s.fed + s.builderCh == h[..s.nextSeq] <= h;
    if Succeeded(s) {
      if s.nextSeq < |c.work| { NotLocated(s); }
      assert h[..s.nextSeq] == h;
      assert s.builderCh == [];
    }
  }

  lemma {:induction false} NotLocated(s: State)
    requires s.nextSeq !in s.pending && s.resultCh == [] && AllExited(s) && s.workCh == []
    ensures !Located(s, s.nextSeq)
  {
  }

  // ----- slots

  function BusyWorkers(ws: seq<Worker>): nat {
    if ws == [] then 0 else BusyWorkers(ws[..|ws| - 1]) + if ws[|ws| - 1].Hashing? ||
        ws[|ws| - 1].Releasing? then 1 else 0
  }

  lemma {:induction false} BusyUpdate(ws: seq<Worker>, w: nat, x: Worker)
    requires w < |ws|
    ensures BusyWorkers(ws[w := x]) + One(ws[w].Hashing? || ws[w].Releasing?) == BusyWorkers(ws) +
        One(x.Hashing? || x.Releasing?)
  {
    if w < |ws| - 1 {
      BusyUpdate(ws[..|ws| - 1], w, x);
      assert ws[w := x][..|ws| - 1] == ws[..|ws| - 1][w := x];
    } else {
      assert ws[w := x][..|ws| - 1] == ws[..|ws| - 1];
    }
  }

  /** Stems that hold, or will release, a semaphore slot. */
  function Tokens(s: State): nat {
    One(s.holdsSlot) + |s.workCh| + BusyWorkers(s.workers)
  }

  /** Workers that returned without giving their slot back. */
  function Leaks(steps: seq<Step>): nat {
    if steps == [] then 0 else Leaks(steps[..|steps| - 1]) + One(IsLeak(steps[|steps| - 1]))
  }

  predicate IsLeak(a: Step) { a.WorkerAbort? || a.WorkerPanic? }

  /** Every slot taken belongs to a stem in flight or was leaked; one more stem is in flight if the reader
  skipped the semaphore. */
  ghost predicate SlotsOk(c: Config, s: State, leaks: nat) {
    && s.slots + One(s.skipped) == Tokens(s) + leaks
    && (leaks > 0 || s.skipped ==> s.cancelled)
    && (s.holdsSlot ==> s.sent < |c.work|)
    && (s.skipped ==> if s.holdsSlot then IsLast(c, s) else s.sent == |c.work|)
    && (leaks == 0 ==> forall i :: 0 <= i < |s.workers| && s.workers[i].Exited? ==> s.readerDone && s.workCh == [])
  }

  lemma {:induction false} StepKeepsSlots(c: Config, s: State, a: Step, leaks: nat)
    requires SlotsOk(c, s, leaks) && Enabled(c, s, a)
    ensures SlotsOk(c, Apply(c, s, a), leaks + One(IsLeak(a)))
  {
    hide Enabled, Apply, SlotsOk;
    if IsWorkerStep(a) {
      WorkerKeepsSlots(c, s, a, leaks);
    } else if IsReaderStep(a) {
      ReaderKeepsSlots(c, s, a, leaks);
    } else {
      OthersKeepSlots(c, s, a, leaks);
    }
  }

  lemma {:induction false} ReaderKeepsSlots(c: Config, s: State, a: Step, leaks: nat)
    requires SlotsOk(c, s, leaks) && Enabled(c, s, a) && IsReaderStep(a)
    ensures SlotsOk(c, Apply(c, s, a), leaks + One(IsLeak(a)))
  {
    hide WorkerEnabled, WorkerApply, OutputEnabled, OutputApply, ItemOf, BusyWorkers;
  }

  lemma {:induction false} OthersKeepSlots(c: Config, s: State, a: Step, leaks: nat)
    requires SlotsOk(c, s, leaks) && Enabled(c, s, a) && !IsWorkerStep(a) && !IsReaderStep(a)
    ensures SlotsOk(c, Apply(c, s, a), leaks + One(IsLeak(a)))
  {
    hide ReaderEnabled, ReaderApply, WorkerEnabled, WorkerApply, ItemOf, BusyWorkers;
  }

  lemma {:induction false} WorkerKeepsSlots(c: Config, s: State, a: Step, leaks: nat)
    requires SlotsOk(c, s, leaks) && Enabled(c, s, a) && IsWorkerStep(a)
    ensures SlotsOk(c, Apply(c, s, a), leaks + One(IsLeak(a)))
  {
    hide ReaderEnabled, ReaderApply, OutputEnabled, OutputApply, ItemOf, BusyWorkers;
    var s' := Apply(c, s, a);
    BusyUpdate(s.workers, a.w, s'.workers[a.w]);
  }

  lemma {:induction false} InitSlots(c: Config, n: nat)
    ensures BusyWorkers(seq(n, _ => Idle)) == 0
  {
    if n > 0 {
      InitSlots(c, n - 1);
      assert seq(n, _ => Idle)[..n - 1] == seq(n - 1, _ => Idle);
    }
  }

  lemma {:induction false} RunKeepsSlots(c: Config, steps: seq<Step>)
    requires After(c, steps).Some?
    ensures SlotsOk(c, After(c, steps).value, Leaks(steps))
  {
    hide SlotsOk, Enabled, Apply;
    if steps == [] {
      SlotsStart(c);
    } else {
      var init := steps[..|steps| - 1];
      RunKeepsSlots(c, init);
      StepKeepsSlots(c, After(c, init).value, steps[|steps| - 1], Leaks(init));
    }
  }

  lemma {:induction false} SlotsStart(c: Config)
    ensures SlotsOk(c, Init(c), 0)
  {
    InitSlots(c, c.NumWorkers());
  }

  // ----- termination

  function WorkersWeight(ws: seq<Worker>): nat {
    if ws == [] then 0 else WorkersWeight(ws[..|ws| - 1]) + WorkerWeight(ws[|ws| - 1])
  }

  lemma {:induction false} WeightUpdate(ws: seq<Worker>, w: nat, x: Worker)
    requires w < |ws|
    ensures WorkersWeight(ws[w := x]) + WorkerWeight(ws[w]) == WorkersWeight(ws) + WorkerWeight(x)
  {
    hide WorkerWeight;
    if w < |ws| - 1 {
      WeightUpdate(ws[..|ws| - 1], w, x);
      assert ws[w := x][..|ws| - 1] == ws[..|ws| - 1][w := x];
    } else {
      assert ws[w := x][..|ws| - 1] == ws[..|ws| - 1];
    }
  }

  /** What is between reader and resequencer. */
  function WorkerWork(s: State): int {
    7 * |s.workCh| + WorkersWeight(s.workers) + 4 * |s.resultCh|
  }

  /** What is left for the resequencer and the builder. */
  function OutputWork(s: State): int {
    2 * |s.pending| + TailWork(s)
  }

  /** Work left, weighted by how far it still has to travel. */
  function Measure(c: Config, s: State): int {
    ReaderWork(c, s) + WorkerWork(s) + OutputWork(s) + One(!s.cancelled)
  }

  lemma {:induction false} StepDecreases(c: Config, s: State, a: Step)
    requires Enabled(c, s, a)
    ensures Measure(c, Apply(c, s, a)) < Measure(c, s)
  {
    hide ItemOf, WorkersWeight, Enabled, Apply, Measure;
    if IsWorkerStep(a) {
      WorkerStepDecreases(c, s, a);
    } else if a.ReseqReceive? || a.ReseqForward? {
      BufferStepDecreases(c, s, a);
    } else if IsReaderStep(a) {
      ReaderStepDecreases(c, s, a);
    } else {
      PlainStepDecreases(c, s, a);
    }
  }

  lemma {:induction false} WorkerStepDecreases(c: Config, s: State, a: Step)
    requires IsWorkerStep(a) && Enabled(c, s, a)
    ensures Measure(c, Apply(c, s, a)) < Measure(c, s)
  {
    hide Enabled, Apply, WorkersWeight, WorkerWeight;
    var s' := Apply(c, s, a);
    WorkerEffects(c, s, a);
    WeightUpdate(s.workers, a.w, s'.workers[a.w]);
  }

  lemma {:induction false} BufferStepDecreases(c: Config, s: State, a: Step)
    requires (a.ReseqReceive? || a.ReseqForward?) && Enabled(c, s, a)
    ensures Measure(c, Apply(c, s, a)) < Measure(c, s)
  {
    hide ReaderEnabled, ReaderApply, WorkerEnabled, WorkerApply, ItemOf, WorkersWeight, ReaderWork, WorkerWeight;
    var s' := Apply(c, s, a);
    assert ReaderWork(c, s') == ReaderWork(c, s) by { SameReaderWork(c, s, s'); }
    if a.ReseqForward? {
      PendingShrinks(s.pending, s.nextSeq);
    } else {
      PendingGrows(s.pending, s.resultCh[0].seqNum, s.resultCh[0].item);
    }
  }

  lemma {:induction false} SameReaderWork(c: Config, s: State, s': State)
    requires SameReader(s, s')
    ensures ReaderWork(c, s') == ReaderWork(c, s)
  {
  }

  lemma {:induction false} ReaderStepDecreases(c: Config, s: State, a: Step)
    requires IsReaderStep(a) && Enabled(c, s, a)
    ensures Measure(c, Apply(c, s, a)) < Measure(c, s)
  {
    hide Enabled, Apply, WorkersWeight, ReaderWork;
    ReaderEffects(c, s, a);
  }

  lemma {:induction false} PlainStepDecreases(c: Config, s: State, a: Step)
    requires IsOutputStep(a) && Enabled(c, s, a)
    ensures Measure(c, Apply(c, s, a)) < Measure(c, s)
  {
    hide Enabled, Apply, WorkersWeight, TailWork, IsOutputStep;
    OutputEffects(c, s, a);
    SameReaderWork(c, s, Apply(c, s, a));
  }

  lemma {:induction false} PendingGrows(m: map<nat, Item>, k: nat, x: Item)
    ensures |m[k := x]| <= |m| + 1
  {
    if k in m { assert m[k := x].Keys == m.Keys; assert |m[k := x]| == |m[k := x].Keys|; }
  }

  lemma {:induction false} PendingShrinks(m: map<nat, Item>, k: nat)
    requires k in m
    ensures |m - {k}| == |m| - 1
  {
    assert (m - {k}).Keys == m.Keys - {k};
    assert |m - {k}| == |(m - {k}).Keys| && |m| == |m.Keys|;
  }

  /** Every run is finite: it has at most Measure(c, Init(c)) steps. */
  lemma {:induction false} RunsAreBounded(c: Config, steps: seq<Step>)
    requires After(c, steps).Some?
    ensures 0 <= Measure(c, After(c, steps).value) <= Measure(c, Init(c)) - |steps|
  {
    hide Measure, SlotsOk;
    if steps != [] {
      var p := After(c, steps[..|steps| - 1]).value;
      RunsAreBounded(c, steps[..|steps| - 1]);
      StepDecreases(c, p, steps[|steps| - 1]);
    }
    RunKeepsSlots(c, steps);
    RunKeepsInv(c, steps);
    MeasureNonNegative(c, After(c, steps).value, Leaks(steps));
  }

  lemma {:induction false} MeasureNonNegative(c: Config, s: State, leaks: nat)
    requires SlotsOk(c, s, leaks) && Inv(c, s)
    ensures Measure(c, s) >= 0
  {
    hide WorkersWeight, Tokens, InOrder, NothingLost;
  }

  // ----- progress

  lemma {:induction false} BusyCounts(ws: seq<Worker>, w: nat)
    requires w < |ws| && (ws[w].Hashing? || ws[w].Releasing?)
    ensures BusyWorkers(ws) > 0
  {
    if w < |ws| - 1 { BusyCounts(ws[..|ws| - 1], w); }
  }

  lemma {:induction false} NoneBusy(ws: seq<Worker>)
    requires forall i :: 0 <= i < |ws| ==> !ws[i].Hashing? && !ws[i].Releasing?
    ensures BusyWorkers(ws) == 0
  {
    if ws != [] { NoneBusy(ws[..|ws| - 1]); }
  }

  /** A state the pipeline can leave on its own, without a new cancellation or panic. */
  ghost predicate CanMove(c: Config, s: State) {
    exists a: Step :: Enabled(c, s, a) && !a.Cancel? && !a.WorkerPanic?
  }

  /** The last stem is in flight without a slot, and no leaked slot makes up for it. */
  predicate ShortOfSlot(s: State, leaks: nat) { s.skipped && !s.holdsSlot && leaks == 0 }

  /** Unless the last stem is in flight without a slot, the pipeline never gets stuck: some goroutine can
  always take a step until all have returned. */
  lemma {:induction false} Progress(c: Config, s: State, leaks: nat) returns (a: Step)
    requires Inv(c, s) && SlotsOk(c, s, leaks) && !Terminal(s) && !ShortOfSlot(s, leaks)
    ensures Enabled(c, s, a) && !a.Cancel? && !a.WorkerPanic?
  {
    hide Located, InOrder, ItemOf, BusyWorkers;
    if s.builderCh != [] {
      a := BuilderFeed;
    } else if !s.reseqDone && s.forwarding {
      a := if s.nextSeq in s.pending then ReseqForward else ReseqNext;
    } else if !s.reseqDone && s.resultCh != [] {
      a := ReseqReceive;
    } else {
      a := ProgressUpstream(c, s, leaks);
    }
  }

  lemma {:induction false} ProgressUpstream(c: Config, s: State, leaks: nat) returns (a: Step)
    requires Inv(c, s) && SlotsOk(c, s, leaks) && !Terminal(s) && !ShortOfSlot(s, leaks)
    requires s.builderCh == [] && (s.reseqDone || (!s.forwarding && s.resultCh == []))
    ensures Enabled(c, s, a) && !a.Cancel? && !a.WorkerPanic?
  {
    hide Located, InOrder, ItemOf, BusyWorkers;
    if w: nat :| WorkerIs(s, w, Releasing) {
      BusyCounts(s.workers, w);
      a := WorkerRelease(w);
    } else if w: nat :| WorkerHashing(s, w) {
      if s.reseqDone {
        assert !s.workers[w].Exited?;
        a := WorkerAbort(w);
      } else {
        a := WorkerSend(w);
      }
    } else if w: nat :| WorkerIs(s, w, Idle) {
      if s.workCh != [] {
        a := WorkerTake(w);
      } else if s.readerDone {
        a := WorkerExit(w);
      } else {
        forall i | 0 <= i < |s.workers| ensures !s.workers[i].Hashing? && !s.workers[i].Releasing? {
          assert !WorkerIs(s, i, Releasing) && !WorkerHashing(s, i);
        }
        NoneBusy(s.workers);
        a := ProgressReader(c, s, leaks);
      }
    } else {
      forall i | 0 <= i < |s.workers| ensures s.workers[i].Exited? {
        assert !WorkerIs(s, i, Releasing) && !WorkerHashing(s, i) && !WorkerIs(s, i, Idle);
      }
      assert AllExited(s);
      a := if !s.readerDone then ReaderClose else if !s.reseqDone then ReseqClose else BuilderFinish;
    }
  }

  lemma {:induction false} ProgressReader(c: Config, s: State, leaks: nat) returns (a: Step)
    requires Inv(c, s) && SlotsOk(c, s, leaks) && !s.readerDone && s.workCh == [] && BusyWorkers(s.workers) == 0
    ensures Enabled(c, s, a) && !a.Cancel? && !a.WorkerPanic?
  {
    hide Located, InOrder, NothingLost, ItemOf, BusyWorkers;
    if s.cancelled || s.sent == |c.work| {
      a := ReaderClose;
    } else if s.holdsSlot {
      a := ReaderSend;
    } else if IsLast(c, s) && !s.lastChecked {
      a := ReaderCheckLast;
    } else {
      a := ReaderAcquire;
    }
  }

  /** A state short of a slot is never terminal: some stem in flight waits for a slot nobody holds. */
  lemma {:induction false} ShortIsStuck(c: Config, s: State, leaks: nat)
    requires SlotsOk(c, s, leaks) && ShortOfSlot(s, leaks) && |s.workers| > 0
    ensures !Terminal(s)
  {
    hide BusyWorkers;
    if AllExited(s) { NothingInFlight(c, s); }
  }

  /** When workers only leave because the input is closed and drained, nothing is in flight at the end. */
  lemma {:induction false} NothingInFlight(c: Config, s: State)
    requires SlotsOk(c, s, 0) && AllExited(s) && |s.workers| > 0
    ensures s.workCh == [] && BusyWorkers(s.workers) == 0
  {
    assert s.workers[0].Exited?;
    NoneBusy(s.workers);
  }

  /** The run took no step that leaks a slot. */
  lemma {:induction false} NoLeaks(steps: seq<Step>)
    ensures Leaks(steps) == 0 <==> forall i :: 0 <= i < |steps| ==> !IsLeak(steps[i])
  {
    if steps != [] {
      var init := steps[..|steps| - 1];
      NoLeaks(init);
      assert forall i :: 0 <= i < |init| ==> init[i] == steps[i];
    }
  }

  /** skipped remembers whether the reader skipped the semaphore, and without a Cancel step only a panic
  cancels. */
  lemma {:induction false} RunRemembers(c: Config, steps: seq<Step>)
    requires After(c, steps).Some?
    ensures After(c, steps).value.skipped <==> ReaderSkip in steps
    ensures After(c, steps).value.cancelled ==> Cancel in steps || Leaks(steps) > 0
  {
    hide Enabled, Apply;
    if steps != [] {
      var init, a := steps[..|steps| - 1], steps[|steps| - 1];
      RunRemembers(c, init);
      assert steps == init + [a];
      StepRemembers(c, After(c, init).value, a);
    }
  }

  predicate Remembers(s: State, a: Step, s': State) {
    && s'.skipped == (s.skipped || a == ReaderSkip)
    && (s'.cancelled ==> s.cancelled || a == Cancel || a.WorkerPanic?)
    && (s'.errored ==> s.errored || s.cancelled || a.WorkerPanic?)
  }

  lemma {:induction false} StepRemembers(c: Config, s: State, a: Step)
    requires Enabled(c, s, a)
    ensures Remembers(s, a, Apply(c, s, a))
  {
    hide Enabled, Apply, Remembers;
    if IsWorkerStep(a) {
      WorkerRemembers(c, s, a);
    } else if IsReaderStep(a) {
      ReaderRemembers(c, s, a);
    } else {
      OthersRemember(c, s, a);
    }
  }

  lemma {:induction false} WorkerRemembers(c: Config, s: State, a: Step)
    requires Enabled(c, s, a) && IsWorkerStep(a)
    ensures Remembers(s, a, Apply(c, s, a))
  {
    hide ItemOf, ReaderEnabled, ReaderApply, OutputEnabled, OutputApply;
  }

  lemma {:induction false} ReaderRemembers(c: Config, s: State, a: Step)
    requires Enabled(c, s, a) && IsReaderStep(a)
    ensures Remembers(s, a, Apply(c, s, a))
  {
    hide ItemOf, WorkerEnabled, WorkerApply, OutputEnabled, OutputApply;
  }

  lemma {:induction false} OthersRemember(c: Config, s: State, a: Step)
    requires Enabled(c, s, a) && !IsWorkerStep(a) && !IsReaderStep(a)
    ensures Remembers(s, a, Apply(c, s, a))
  {
    hide ItemOf, ReaderEnabled, ReaderApply, WorkerEnabled, WorkerApply;
  }

  /** Exactly when the call hangs: a run that can go no further has not returned if and only if its reader
  skipped the semaphore, sent the last stem all the same, and no worker aborted or panicked. */
  lemma {:induction false} HangsIff(c: Config, steps: seq<Step>)
    requires After(c, steps).Some? && !CanMove(c, After(c, steps).value)
    ensures var s := After(c, steps).value;
            !Terminal(s) <==>
              && ReaderSkip in steps && s.sent == |c.work|
              && forall i :: 0 <= i < |steps| ==> !steps[i].WorkerAbort? && !steps[i].WorkerPanic?
  {
    hide After, Inv, Terminal, Enabled;
    var s := After(c, steps).value;
    var leaks := Leaks(steps);
    RunKeepsInv(c, steps);
    RunKeepsSlots(c, steps);
    RunRemembers(c, steps);
    NoLeaks(steps);
    assert forall i :: 0 <= i < |steps| ==> (IsLeak(steps[i]) <==> steps[i].WorkerAbort? || steps[i].WorkerPanic?);
    assert ShortOfSlot(s, leaks) <==> ReaderSkip in steps && s.sent == |c.work| && leaks == 0;
    if ShortOfSlot(s, leaks) {
      HasWorkers(c, s);
      ShortIsStuck(c, s, leaks);
    } else if !Terminal(s) {
      var a := Progress(c, s, leaks);
    }
  }

  lemma {:induction false} HasWorkers(c: Config, s: State)
    requires Inv(c, s)
    ensures |s.workers| > 0
  {
    hide InOrder, NothingLost;
  }

  /** A worker's panic never makes the call hang, and neither does anything else as long as the caller does
  not cancel. */
  lemma {:induction false} ReturnsUnlessCancelled(c: Config, steps: seq<Step>)
    requires After(c, steps).Some? && !CanMove(c, After(c, steps).value)
    requires Cancel !in steps || exists i :: 0 <= i < |steps| && steps[i].WorkerPanic?
    ensures Terminal(After(c, steps).value)
  {
    hide After, Terminal, Enabled, CanMove, SlotsOk;
    HangsIff(c, steps);
    RunRemembers(c, steps);
    RunKeepsSlots(c, steps);
    NoLeaks(steps);
    SkippedIsCancelled(c, After(c, steps).value, Leaks(steps));
    assert forall i :: 0 <= i < |steps| ==> (IsLeak(steps[i]) <==> steps[i].WorkerAbort? || steps[i].WorkerPanic?);
  }

  /** Without a cancellation or a panic, every run can be completed to a successful one. */
  lemma {:induction false} CompleteRun(c: Config, steps: seq<Step>) returns (r: seq<Step>)
    requires After(c, steps).Some? && !After(c, steps).value.cancelled && !After(c, steps).value.errored
    ensures steps <= r && After(c, r).Some? && Succeeded(After(c, r).value)
    decreases Measure(c, After(c, steps).value)
  {
    hide After, Inv, SlotsOk, Enabled, Apply, Measure, AllExited;
    var s := After(c, steps).value;
    if Terminal(s) {
      r := steps;
    } else {
      RunKeepsInv(c, steps);
      RunKeepsSlots(c, steps);
      SkippedIsCancelled(c, s, Leaks(steps));
      var a := Progress(c, s, Leaks(steps));
      StepRemembers(c, s, a);
      Extend(c, steps, s, a, Apply(c, s, a));
      StepDecreases(c, s, a);
      RunsAreBounded(c, steps);
      RunsAreBounded(c, steps + [a]);
      r := CompleteRun(c, steps + [a]);
    }
  }

  /** Every input has a successful run. */
  lemma {:induction false} SuccessfulRun(c: Config) returns (steps: seq<Step>)
    ensures After(c, steps).Some? && Succeeded(After(c, steps).value)
  {
    hide After, Succeeded;
    AfterNothing(c);
    steps := CompleteRun(c, []);
  }

  lemma {:induction false} SkippedIsCancelled(c: Config, s: State, leaks: nat)
    requires SlotsOk(c, s, leaks)
    ensures s.skipped ==> s.cancelled
  {
  }

  // ----- a run that hangs

  lemma {:induction false} Extend(c: Config, steps: seq<Step>, s: State, a: Step, s': State)
    requires After(c, steps) == Some(s) && Enabled(c, s, a) && s' == Apply(c, s, a)
    ensures After(c, steps + [a]) == Some(s')
  {
    hide Enabled, Apply;
    assert (steps + [a])[..|steps|] == steps;
  }

  /** With one stem and one worker: the reader passes its check, is cancelled, skips the slot and still
  sends the stem; the worker sends the result and then waits for a slot that nobody holds. Nothing
  can move any more and the call never returns. */
  lemma {:induction false} HangWitness(x: StemWork) returns (c: Config, steps: seq<Step>)
    ensures c == Config([x], 0) && After(c, steps).Some?
    ensures var s := After(c, steps).value; !Terminal(s) && !CanMove(c, s) && s.skipped && s.cancelled
  {
    hide After, ItemOf;
    c := Config([x], 0);
    var s0 := Init(c);
    assert s0.workers == [Idle];
    assert After(c, []) == Some(s0) by { AfterNothing(c); }
    var s1 := s0.(lastChecked := true);
    Extend(c, [], s0, ReaderCheckLast, s1);
    var s2 := s1.(cancelled := true);
    Extend(c, [] + [ReaderCheckLast], s1, Cancel, s2);
    steps := [] + [ReaderCheckLast] + [Cancel];
    var s3 := s2.(holdsSlot := true, skipped := true);
    Extend(c, steps, s2, ReaderSkip, s3);
    var s4 := s3.(holdsSlot := false, workCh := [0], sent := 1);
    Extend(c, steps + [ReaderSkip], s3, ReaderSend, s4);
    steps := steps + [ReaderSkip] + [ReaderSend];
    var s5 := s4.(readerDone := true);
    Extend(c, steps, s4, ReaderClose, s5);
    steps := steps + [ReaderClose];
    steps := HangTail(c, steps, s5);
  }

  lemma {:induction false} AfterNothing(c: Config)
    ensures After(c, []) == Some(Init(c))
  {
  }

  lemma {:induction false} HangTail(c: Config, steps: seq<Step>, s5: State) returns (r: seq<Step>)
    requires |c.work| == 1 && c.extraWorkers == 0 && After(c, steps) == Some(s5)
    requires s5 == Init(c).(lastChecked := true, cancelled := true, skipped := true, workCh := [0], sent := 1,
        readerDone := true)
    ensures After(c, r).Some?
    ensures var s := After(c, r).value; !Terminal(s) && !CanMove(c, s) && s.skipped && s.cancelled
  {
    hide After, ItemOf;
    assert s5.workers == [Idle];
    var x := ItemOf(c, 0);
    var s6 := s5.(workers := [Hashing(0)], workCh := []);
    Extend(c, steps, s5, WorkerTake(0), s6);
    var s7 := s6.(workers := [Releasing], resultCh := [Result(0, x)]);
    Extend(c, steps + [WorkerTake(0)], s6, WorkerSend(0), s7);
    r := HangEnd(c, steps + [WorkerTake(0)] + [WorkerSend(0)], s7, x);
  }

  lemma {:induction false} HangEnd(c: Config, steps: seq<Step>, s7: State, x: Item) returns (r: seq<Step>)
    requires After(c, steps) == Some(s7) && s7.workers == [Releasing] && s7.slots == 0 && s7.readerDone && s7.skipped &&
        s7.cancelled
    requires s7.resultCh == [Result(0, x)] && s7.pending == map[] && s7.nextSeq == 0 && !s7.forwarding &&
        !s7.reseqDone && s7.builderCh == []
    ensures After(c, r).Some?
    ensures var s := After(c, r).value; !Terminal(s) && !CanMove(c, s) && s.skipped && s.cancelled
  {
    hide After, ItemOf, CanMove, ReaderEnabled, ReaderApply, WorkerEnabled, WorkerApply;
    var s8 := s7.(pending := map[0 := x], resultCh := [], forwarding := true);
    Extend(c, steps, s7, ReseqReceive, s8);
    assert map[0 := x] - {0} == map[];
    var s9 := s8.(builderCh := [x], pending := map[], nextSeq := 1);
    Extend(c, steps + [ReseqReceive], s8, ReseqForward, s9);
    r := steps + [ReseqReceive] + [ReseqForward];
    var s10 := s9.(forwarding := false);
    Extend(c, r, s9, ReseqNext, s10);
    var s11 := s10.(fed := s7.fed + [x], builderCh := []);
    Extend(c, r + [ReseqNext], s10, BuilderFeed, s11);
    r := r + [ReseqNext] + [BuilderFeed];
    CannotMove(c, s11);
  }

  /** Only a worker waiting for a slot is left, and no slot is taken. */
  lemma {:induction false} CannotMove(c: Config, s: State)
    requires s.readerDone && s.workers == [Releasing] && s.slots == 0 && s.resultCh == [] && !s.forwarding &&
        !s.reseqDone && s.builderCh == []
    ensures !CanMove(c, s) && !Terminal(s)
  {
    assert s.workers[0] == Releasing;
    assert !AllExited(s);
  }

  // ----- the root

  /** The builder goroutine of a successful run, whatever the interleaving, computes what the sequential
  computation over the sorted stems computes. */
  method BuildFromRun(c: Config, steps: seq<Step>, groupDepth: nat, w: TrieNodeWriter?) returns (r: Outcome)
    requires AscendingWork(c.work) && After(c, steps).Some? && Succeeded(After(c, steps).value)
    requires w != null ==> w.store == map[] && w.nodes == 0
    modifies if w == null then {} else {w}
    ensures r == if Fits(Hashed(c.work), groupDepth) then Done(Root(Hashed(c.work), groupDepth)) else Panic
    ensures r.Done? && w != null ==> FinalStore(w.store, Hashed(c.work), groupDepth) && w.nodes == |w.store|
  {
    hide After, Succeeded, TreeSpec.Node, TreeSpec.Under, BuilderSteps.Fits, BuilderSteps.FinalStore,
      StemHash.StemNodeHash, TreeSpec.Ascending;
    FedInOrder(c, steps);
    HashedAscending(c.work);
    r := BuildRoot(After(c, steps).value.fed, groupDepth, w);
  }
}
